/** The text handling around the language-model call of the AI service: the three prompt
    builders and the post-processing of a tag suggestion. The model call itself is the opaque
    parameter `generate`, from prompt text to response text. */
module Gemini {
  import opened Results

  /** The characters Python's `str.strip()` removes when given no argument: exactly those for
      which `str.isspace()` holds. */
  predicate IsSpace(c: char)
  {
    || c == ' ' || c == '\t' || c == '\n' || c == '\r' || c == '\U{0B}' || c == '\U{0C}'
    || ('\U{1C}' <= c <= '\U{1F}')
    || c == '\U{85}' || c == '\U{A0}' || c == '\U{1680}'
    || ('\U{2000}' <= c <= '\U{200A}')
    || c == '\U{2028}' || c == '\U{2029}' || c == '\U{202F}' || c == '\U{205F}' || c == '\U{3000}'
  }

  /** The number of occurrences of `c` in `s`. */
  function Count(s: string, c: char): nat
  {
    if s == [] then 0 else (if s[0] == c then 1 else 0) + Count(s[1..], c)
  }

  /** `s.split(sep)`: the pieces between the separators, one more than there are separators,
      none of them containing the separator; adjacent separators give an empty piece. */
  function Split(s: string, sep: char): (parts: seq<string>)
    ensures |parts| == Count(s, sep) + 1
    ensures forall i :: 0 <= i < |parts| ==> sep !in parts[i]
  {
    if s == [] then [""]
    else
      var rest := Split(s[1..], sep);
      if s[0] == sep then [""] + rest
      else [[s[0]] + rest[0]] + rest[1..]
  }

  /** `sep.join(parts)`. */
  function Join(parts: seq<string>, sep: char): string
    requires |parts| >= 1
  {
    if |parts| == 1 then parts[0] else parts[0] + [sep] + Join(parts[1..], sep)
  }

  /** Growing the first piece grows the joined text at its front. */
  lemma {:induction false} JoinExtendsHead(x: string, parts: seq<string>, sep: char)
    requires |parts| >= 1
    ensures Join([x + parts[0]] + parts[1..], sep) == x + Join(parts, sep)
  {
    var grown := [x + parts[0]] + parts[1..];
    assert grown[1..] == parts[1..];
    if |parts| > 1 {
      assert Join(grown, sep) == (x + parts[0]) + [sep] + Join(parts[1..], sep);
    }
  }

  /** Splitting loses nothing: joining the pieces with the separator gives the text back. */
  lemma {:induction false} JoinSplit(s: string, sep: char)
    ensures Join(Split(s, sep), sep) == s
  {
    if s != [] {
      var rest := Split(s[1..], sep);
      JoinSplit(s[1..], sep);
      if s[0] == sep {
        var parts := [""] + rest;
        assert parts[1..] == rest;
        assert Join(parts, sep) == "" + [sep] + Join(rest, sep);
        assert s == [sep] + s[1..];
      } else {
        JoinExtendsHead([s[0]], rest, sep);
        assert s == [s[0]] + s[1..];
      }
    }
  }

  /** A separator-free prefix only extends the first piece. */
  lemma {:induction false} SplitUnderPrefix(x: string, s: string, sep: char)
    requires sep !in x
    ensures Split(x + s, sep) == [x + Split(s, sep)[0]] + Split(s, sep)[1..]
  {
    if x != [] {
      SplitUnderPrefix(x[1..], s, sep);
      assert (x + s)[1..] == x[1..] + s;
      assert (x + s)[0] == x[0] && x[0] != sep;
      var rest := Split(x[1..] + s, sep);
      assert rest[0] == x[1..] + Split(s, sep)[0];
      assert rest[1..] == Split(s, sep)[1..];
      assert Split(x + s, sep) == [[x[0]] + rest[0]] + rest[1..];
      assert [x[0]] + (x[1..] + Split(s, sep)[0]) == x + Split(s, sep)[0];
    } else {
      assert x + s == s;
      assert |Split(s, sep)| >= 1;
      assert x + Split(s, sep)[0] == Split(s, sep)[0];
      assert Split(s, sep) == [Split(s, sep)[0]] + Split(s, sep)[1..];
    }
  }

  /** Joining separator-free pieces and splitting again gives the same pieces. */
  lemma {:induction false} SplitJoin(parts: seq<string>, sep: char)
    requires |parts| >= 1
    requires forall i :: 0 <= i < |parts| ==> sep !in parts[i]
    ensures Split(Join(parts, sep), sep) == parts
  {
    if |parts| == 1 {
      SplitUnderPrefix(parts[0], "", sep);
      assert parts[0] + "" == parts[0];
    } else {
      var tail := Join(parts[1..], sep);
      SplitJoin(parts[1..], sep);
      assert Join(parts, sep) == parts[0] + ([sep] + tail);
      SplitUnderPrefix(parts[0], [sep] + tail, sep);
      assert ([sep] + tail)[1..] == tail;
      assert Split([sep] + tail, sep) == [""] + parts[1..];
      assert parts[0] + "" == parts[0];
      assert parts == [parts[0]] + parts[1..];
    }
  }

  /** The first position at or after `i` that does not hold whitespace (`|s|` if none). */
  function SkipSpace(s: string, i: nat): (j: nat)
    requires i <= |s|
    ensures i <= j <= |s|
    ensures forall k :: i <= k < j ==> IsSpace(s[k])
    ensures j == |s| || !IsSpace(s[j])
    decreases |s| - i
  {
    if i < |s| && IsSpace(s[i]) then SkipSpace(s, i + 1) else i
  }

  /** The end of `s[lo..hi]` once its trailing whitespace is cut off. */
  function BackSpace(s: string, lo: nat, hi: nat): (e: nat)
    requires lo <= hi <= |s|
    ensures lo <= e <= hi
    ensures forall k :: e <= k < hi ==> IsSpace(s[k])
    ensures e == lo || !IsSpace(s[e - 1])
  {
    if lo < hi && IsSpace(s[hi - 1]) then BackSpace(s, lo, hi - 1) else hi
  }

  /** `s.strip()`: the middle of `s` between its leading and its trailing whitespace. */
  function Strip(s: string): (r: string)
    ensures Stripped(r)
    ensures |r| <= |s|
    ensures forall c :: c in r ==> c in s
  {
    var i := SkipSpace(s, 0);
    var e := BackSpace(s, i, |s|);
    var r := s[i..e];
    forall c | c in r ensures c in s {
      var k :| 0 <= k < |r| && r[k] == c;
      assert s[i + k] == c;
    }
    r
  }

  /** No whitespace at either end. */
  predicate Stripped(t: string)
  {
    t == [] || (!IsSpace(t[0]) && !IsSpace(t[|t| - 1]))
  }

  /** The stripped text is the stretch `s[i..e]` of `s`: everything before `i` and from `e` on
      is whitespace, and the stretch neither starts nor ends with whitespace. */
  lemma StripSpec(s: string)
    ensures var i := SkipSpace(s, 0); var e := BackSpace(s, i, |s|);
      && Strip(s) == s[i..e]
      && (forall k :: 0 <= k < i ==> IsSpace(s[k]))
      && (forall k :: e <= k < |s| ==> IsSpace(s[k]))
      && Stripped(Strip(s))
  {
  }

  /** Stripping twice is stripping once. */
  lemma StripIdempotent(s: string)
    ensures Strip(Strip(s)) == Strip(s)
  {
    var r := Strip(s);
    StripSpec(s);
    assert SkipSpace(r, 0) == 0;
    assert BackSpace(r, 0, |r|) == |r|;
  }

  /** Stripping cannot introduce a character: a separator-free text strips to one. */
  lemma StripKeepsOut(s: string, c: char)
    requires c !in s
    ensures c !in Strip(s)
  {
    StripSpec(s);
  }

  /** `[x.strip() for x in parts]`. */
  function StripAll(parts: seq<string>): (r: seq<string>)
    ensures |r| == |parts|
    ensures forall i :: 0 <= i < |parts| ==> r[i] == Strip(parts[i])
  {
    seq(|parts|, i requires 0 <= i < |parts| => Strip(parts[i]))
  }

  /** The post-processing of a tag suggestion: split the response on commas, strip each piece.
      There is one tag more than the response has commas, and no tag holds a comma or
      surrounding whitespace. */
  function SuggestedTags(response: string): (tags: seq<string>)
    ensures |tags| == Count(response, ',') + 1
    ensures forall i :: 0 <= i < |tags| ==> ',' !in tags[i] && Stripped(tags[i])
  {
    var parts := Split(response, ',');
    var tags := StripAll(parts);
    forall i | 0 <= i < |tags| ensures ',' !in tags[i] {
      StripKeepsOut(parts[i], ',');
    }
    tags
  }

  /** One tag per comma-separated piece of the response, in the response's order, none of them
      with surrounding whitespace or a comma. The list is never empty (an empty response gives
      one empty tag), and nothing caps its length or checks it against the vocabulary the
      prompt names. */
  lemma SuggestedTagsSpec(response: string)
    ensures var tags := SuggestedTags(response);
      && |tags| == Count(response, ',') + 1
      && (forall i :: 0 <= i < |tags| ==> tags[i] == Strip(Split(response, ',')[i]))
      && (forall i :: 0 <= i < |tags| ==> ',' !in tags[i] && Stripped(tags[i]))
  {
    var parts := Split(response, ',');
    var tags := SuggestedTags(response);
    forall i | 0 <= i < |tags|
      ensures ',' !in tags[i] && Stripped(tags[i])
    {
      StripKeepsOut(parts[i], ',');
      StripSpec(parts[i]);
    }
  }

  /** A response that lists comma-free pieces separated by commas yields exactly those pieces,
      stripped, in order: however many there are (the "up to 3" of the prompt is not enforced)
      and whatever they say (the vocabulary of the prompt is not checked). */
  lemma SuggestedTagsOfList(pieces: seq<string>)
    requires |pieces| >= 1
    requires forall i :: 0 <= i < |pieces| ==> ',' !in pieces[i]
    ensures SuggestedTags(Join(pieces, ',')) == StripAll(pieces)
  {
    SplitJoin(pieces, ',');
  }

  /** `prefix` followed by `text` between single quotes: how each builder embeds its input. */
  function Quoted(prefix: string, text: string): (r: string)
    ensures |r| == |prefix| + |text| + 2
  {
    prefix + "'" + text + "'"
  }

  /** The text a quoted prompt embeds after `prefix`, or None when `r` is not of that form. */
  function Unquote(r: string, prefix: string): (text: Option<string>)
  {
    if |r| >= |prefix| + 2 && r[..|prefix|] == prefix && r[|prefix|] == '\'' && r[|r| - 1] == '\''
    then Some(r[|prefix| + 1..|r| - 1])
    else None
  }

  /** The input is embedded verbatim: it can be read back from the prompt, so two different
      inputs never give the same prompt. */
  lemma UnquoteQuoted(prefix: string, text: string)
    ensures Unquote(Quoted(prefix, text), prefix) == Some(text)
  {
    var r := Quoted(prefix, text);
    assert r[..|prefix|] == prefix;
    assert r[|prefix| + 1..|r| - 1] == text;
  }

  /** Conversely, a prompt from which a text can be read back is the quoted form of that text. */
  lemma QuotedUnquote(r: string, prefix: string)
    requires Unquote(r, prefix).Some?
    ensures Quoted(prefix, Unquote(r, prefix).value) == r
  {
    var text := Unquote(r, prefix).value;
    assert r == r[..|prefix|] + [r[|prefix|]] + r[|prefix| + 1..|r| - 1] + [r[|r| - 1]];
  }

  lemma QuotedInjective(prefix: string, a: string, b: string)
    requires Quoted(prefix, a) == Quoted(prefix, b)
    ensures a == b
  {
    UnquoteQuoted(prefix, a);
    UnquoteQuoted(prefix, b);
  }

  const FeedbackPromptPrefix := "Based on the following points, write a constructive feedback paragraph for an employee. "
    + "The tone should be professional and encouraging. The points are: "

  const RephrasePromptPrefix := "Rephrase the following text to be more professional, clear, and constructive, "
    + "while retaining the core message. Here is the text: "

  const TagPromptPrefix := "Based on the following feedback content, suggest up to 3 relevant tags "
    + "from this list: [Leadership, Communication, Teamwork, Technical Skills, "
    + "Problem Solving, Creativity, Time Management, Adaptability]. "
    + "Return only a comma-separated list of the tag names. "
    + "Content: "

  /** The prompt of `generate_feedback_suggestion`. */
  function FeedbackPrompt(points: string): string
  {
    Quoted(FeedbackPromptPrefix, points)
  }

  /** The prompt of `rephrase_text`. */
  function RephrasePrompt(text: string): string
  {
    Quoted(RephrasePromptPrefix, text)
  }

  /** The feedback content the tag prompt embeds. */
  function TagContent(strengths: string, areasForImprovement: string): string
  {
    "Strengths: " + strengths + ". Areas for improvement: " + areasForImprovement + "."
  }

  /** The prompt of `suggest_tags_for_feedback`. */
  function TagPrompt(strengths: string, areasForImprovement: string): string
  {
    Quoted(TagPromptPrefix, TagContent(strengths, areasForImprovement))
  }

  /** Each builder puts its fixed wording first and the caller's text, unchanged, between
      quotes after it. */
  lemma PromptsEmbedVerbatim(points: string, text: string, strengths: string, areas: string)
    ensures Unquote(FeedbackPrompt(points), FeedbackPromptPrefix) == Some(points)
    ensures Unquote(RephrasePrompt(text), RephrasePromptPrefix) == Some(text)
    ensures Unquote(TagPrompt(strengths, areas), TagPromptPrefix) == Some(TagContent(strengths, areas))
  {
    UnquoteQuoted(FeedbackPromptPrefix, points);
    UnquoteQuoted(RephrasePromptPrefix, text);
    UnquoteQuoted(TagPromptPrefix, TagContent(strengths, areas));
  }

  /** `generate_feedback_suggestion`: the model's answer, unchanged, to the one prompt that
      carries `points` quoted after the fixed feedback wording. */
  function GenerateFeedbackSuggestion(points: string, generate: string -> string): (r: string)
    ensures forall p :: Unquote(p, FeedbackPromptPrefix) == Some(points) ==> r == generate(p)
  {
    forall p | Unquote(p, FeedbackPromptPrefix) == Some(points) ensures p == FeedbackPrompt(points) {
      QuotedUnquote(p, FeedbackPromptPrefix);
    }
    generate(FeedbackPrompt(points))
  }

  /** `rephrase_text`: the model's answer, unchanged, to the one prompt that carries `text`
      quoted after the fixed rephrase wording. */
  function RephraseText(text: string, generate: string -> string): (r: string)
    ensures forall p :: Unquote(p, RephrasePromptPrefix) == Some(text) ==> r == generate(p)
  {
    forall p | Unquote(p, RephrasePromptPrefix) == Some(text) ensures p == RephrasePrompt(text) {
      QuotedUnquote(p, RephrasePromptPrefix);
    }
    generate(RephrasePrompt(text))
  }

  /** `suggest_tags_for_feedback`: the answer to the tag prompt, split on commas, each piece
      stripped, in the answer's order. */
  function SuggestTagsForFeedback(strengths: string, areas: string, generate: string -> string): (tags: seq<string>)
    ensures |tags| == Count(generate(TagPrompt(strengths, areas)), ',') + 1
    ensures forall i :: 0 <= i < |tags| ==> ',' !in tags[i]
    ensures forall i :: 0 <= i < |tags|
              ==> Stripped(tags[i]) && tags[i] == Strip(Split(generate(TagPrompt(strengths, areas)), ',')[i])
  {
    SuggestedTagsSpec(generate(TagPrompt(strengths, areas)));
    SuggestedTags(generate(TagPrompt(strengths, areas)))
  }
}
