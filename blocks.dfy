/** The client's block extractor: a chat message is cut into text, code and
    math blocks by two regular-expression passes. The first pass finds fenced
    code blocks left to right; the second pass runs only over the text after
    the last code block and finds $$display$$ and $inline$ formulas. Text
    between matches becomes trimmed text blocks; blank text is dropped.

    The regular expressions are modelled as explicit scanners: CodeMatchAt and
    MathMatchAt say what a pattern matches at one position, FindCode and
    FindMath give the leftmost match at or after a position (RegExp.exec with
    the g flag). Segments cuts a message into the raw spans those searches
    produce; RenderAll turns spans into blocks; ExtractBlocks is the loop. */
module Blocks {

  import opened Common
  import opened Strings

  datatype Block =
    | Text(content: string)
    | Code(language: string, content: string)
    | Math(display: bool, content: string)

  /** the language given to a fence that names none */
  const DefaultLanguage: string := "plaintext"

  /** \w of a regular expression without the u flag */
  predicate IsWordChar(c: char)
  {
    'a' <= c <= 'z' || 'A' <= c <= 'Z' || '0' <= c <= '9' || c == '_'
  }

  /** End of the longest run of word characters starting at i. */
  function WordEnd(s: string, i: nat): (j: nat)
    requires i <= |s|
    ensures i <= j <= |s|
    ensures forall k :: i <= k < j ==> IsWordChar(s[k])
    ensures j == |s| || !IsWordChar(s[j])
    decreases |s| - i
  {
    if i < |s| && IsWordChar(s[i]) then WordEnd(s, i + 1) else i
  }

  /** End of the longest run of characters other than $ and line feed from i. */
  function InlineEnd(s: string, i: nat): (j: nat)
    requires i <= |s|
    ensures i <= j <= |s|
    ensures forall k :: i <= k < j ==> s[k] != '$' && s[k] != '\n'
    ensures j == |s| || s[j] == '$' || s[j] == '\n'
    decreases |s| - i
  {
    if i < |s| && s[i] != '$' && s[i] != '\n' then InlineEnd(s, i + 1) else i
  }

  // ---------------------------------------------------------------------
  // The two delimiters the patterns search for

  datatype Delimiter = Backticks | Dollars

  /** How a delimiter is written. */
  function Spelling(d: Delimiter): string
  {
    match d
    case Backticks => "```"
    case Dollars => "$$"
  }

  /** The delimiter is written in s starting at i. */
  predicate DelimiterAt(s: string, i: nat, d: Delimiter)
  {
    match d
    case Backticks => i + 3 <= |s| && s[i] == '`' && s[i + 1] == '`' && s[i + 2] == '`'
    case Dollars => i + 2 <= |s| && s[i] == '$' && s[i + 1] == '$'
  }

  /** Leftmost delimiter at or after i (s.indexOf(delimiter, i), or none). */
  function FindDelimiter(s: string, d: Delimiter, i: nat): (r: Option<nat>)
    requires i <= |s|
    ensures r.Some? ==> i <= r.value && DelimiterAt(s, r.value, d)
    decreases |s| - i
  {
    if DelimiterAt(s, i, d) then Some(i)
    else if i == |s| then None
    else FindDelimiter(s, d, i + 1)
  }

  /** No delimiter lies between i and the one found, and none at all after i
      when none is found. */
  lemma {:induction false} FindDelimiterLeftmost(s: string, d: Delimiter, i: nat)
    requires i <= |s|
    ensures var r := FindDelimiter(s, d, i);
      && (r.Some? ==> forall j :: i <= j < r.value ==> !DelimiterAt(s, j, d))
      && (r.None? ==> forall j :: i <= j <= |s| ==> !DelimiterAt(s, j, d))
    decreases |s| - i
  {
    if !DelimiterAt(s, i, d) && i < |s| {
      FindDelimiterLeftmost(s, d, i + 1);
    }
  }

  /** Conversely, the first delimiter at or after i is the one found. */
  lemma {:induction false} FindDelimiterFirst(s: string, d: Delimiter, i: nat, k: nat)
    requires i <= k <= |s| && DelimiterAt(s, k, d)
    requires forall j :: i <= j < k ==> !DelimiterAt(s, j, d)
    ensures FindDelimiter(s, d, i) == Some(k)
    decreases k - i
  {
    if i < k {
      FindDelimiterFirst(s, d, i + 1, k);
    }
  }

  // ---------------------------------------------------------------------
  // The code pattern /```(\w*)\n([\s\S]*?)```/g

  datatype CodeMatch = CodeMatch(start: nat, end: nat, language: string, body: string)

  /** What a match of the code pattern looks like: a fence, a language made
      of word characters, a line feed, the body, and a closing fence that is
      the first fence after the line feed (the body is lazy). */
  predicate FenceShape(raw: string, language: string, body: string)
  {
    && raw == Spelling(Backticks) + language + "\n" + body + Spelling(Backticks)
    && (forall k :: 0 <= k < |language| ==> IsWordChar(language[k]))
    && (forall j :: |language| + 4 <= j < |raw| - 3 ==> !DelimiterAt(raw, j, Backticks))
  }

  /** The match of the code pattern that starts exactly at p, if any. */
  function CodeMatchAt(s: string, p: nat): (r: Option<CodeMatch>)
    requires p <= |s|
    ensures r.Some? ==> r.value.start == p && p + 7 <= r.value.end <= |s| && s[p] == '`'
  {
    if !DelimiterAt(s, p, Backticks) then None
    else
      var q := WordEnd(s, p + 3);
      if q < |s| && s[q] == '\n' then
        match FindDelimiter(s, Backticks, q + 1)
        case None => None
        case Some(c) => Some(CodeMatch(p, c + 3, s[p + 3..q], s[q + 1..c]))
      else None
  }

  /** Every match of the code pattern has the code shape. */
  lemma CodeMatchAtSound(s: string, p: nat)
    requires p <= |s| && CodeMatchAt(s, p).Some?
    ensures var m := CodeMatchAt(s, p).value; FenceShape(s[p..m.end], m.language, m.body)
  {
    var q := WordEnd(s, p + 3);
    var c := FindDelimiter(s, Backticks, q + 1).value;
    FenceRaw(s, p, q, c);
    WordRun(s, p + 3, q);
    FindDelimiterLeftmost(s, Backticks, q + 1);
    NoFenceBetween(s, p, q, c);
  }

  /** The characters of a word run, read as a string of their own. */
  lemma WordRun(s: string, i: nat, q: nat)
    requires i <= q <= |s|
    requires forall k :: i <= k < q ==> IsWordChar(s[k])
    ensures var w := s[i..q]; forall k :: 0 <= k < |w| ==> IsWordChar(w[k])
  {
    var w := s[i..q];
    forall k | 0 <= k < |w| ensures IsWordChar(w[k]) {
      assert w[k] == s[i + k];
    }
  }

  /** No fence between q + 1 and c in s means none at the same places of the
      span from p. */
  lemma NoFenceBetween(s: string, p: nat, q: nat, c: nat)
    requires p < q < c && c + 3 <= |s|
    requires forall j :: q + 1 <= j < c ==> !DelimiterAt(s, j, Backticks)
    ensures var raw := s[p..c + 3];
      forall j :: q - p + 1 <= j < |raw| - 3 ==> !DelimiterAt(raw, j, Backticks)
  {
    var raw := s[p..c + 3];
    forall j | q - p + 1 <= j < |raw| - 3 ensures !DelimiterAt(raw, j, Backticks) {
      assert !DelimiterAt(s, p + j, Backticks);
      assert raw[j] == s[p + j] && raw[j + 1] == s[p + j + 1] && raw[j + 2] == s[p + j + 2];
    }
  }

  /** The text from an opening fence to a closing fence, cut into its pieces. */
  lemma FenceRaw(s: string, p: nat, q: nat, c: nat)
    requires DelimiterAt(s, p, Backticks) && DelimiterAt(s, c, Backticks)
    requires p + 3 <= q < c && s[q] == '\n'
    ensures s[p..c + 3] == Spelling(Backticks) + s[p + 3..q] + "\n" + s[q + 1..c] + Spelling(Backticks)
  {
    assert s[p..p + 3] == Spelling(Backticks);
    assert s[c..c + 3] == Spelling(Backticks);
    assert s[q..q + 1] == "\n";
    SliceSplit(s, p, p + 3, q, c + 3);
    SliceSplit(s, q, q + 1, c, c + 3);
  }

  /** Conversely, every span of the code shape starting at p is the match at p:
      the pattern recognises exactly the spans FenceShape describes. */
  lemma CodeMatchAtComplete(s: string, p: nat, end: nat, language: string, body: string)
    requires p <= end <= |s|
    requires FenceShape(s[p..end], language, body)
    ensures CodeMatchAt(s, p) == Some(CodeMatch(p, end, language, body))
  {
    var q := p + 3 + |language|;
    FencePieces(s, p, end, language, body);
    LanguageEnd(s, p + 3, q, language);
    forall j | q + 1 <= j < end - 3 ensures !DelimiterAt(s, j, Backticks) {
      NoFenceInside(s, p, end, language, body, j);
    }
    FindDelimiterFirst(s, Backticks, q + 1, end - 3);
    assert CodeMatchAt(s, p) == Some(CodeMatch(p, end, s[p + 3..q], s[q + 1..end - 3]));
  }

  /** Where the pieces of a span of the code shape lie in the message. */
  lemma FencePieces(s: string, p: nat, end: nat, language: string, body: string)
    requires p <= end <= |s|
    requires s[p..end] == Spelling(Backticks) + language + "\n" + body + Spelling(Backticks)
    ensures p + |language| + 7 <= end
    ensures DelimiterAt(s, p, Backticks) && DelimiterAt(s, end - 3, Backticks)
    ensures s[p + 3..p + 3 + |language|] == language && s[p + 3 + |language|] == '\n'
    ensures s[p + |language| + 4..end - 3] == body
  {
    var raw := s[p..end];
    var q := p + 3 + |language|;
    FenceParts(raw, language, body);
    assert raw[0] == s[p] && raw[1] == s[p + 1] && raw[2] == s[p + 2];
    assert raw[|raw| - 3] == s[end - 3] && raw[|raw| - 2] == s[end - 2] && raw[|raw| - 1] == s[end - 1];
    SliceOfSlice(s, p, end, 3, 3 + |language|);
    SliceOfSlice(s, p, end, |language| + 4, |raw| - 3);
    assert s[q] == raw[q - p];
  }

  /** The pieces of a span of the code shape. */
  lemma FenceParts(raw: string, language: string, body: string)
    requires raw == Spelling(Backticks) + language + "\n" + body + Spelling(Backticks)
    ensures |raw| == |language| + |body| + 7
    ensures raw[0] == raw[1] == raw[2] == '`'
    ensures raw[|raw| - 3] == raw[|raw| - 2] == raw[|raw| - 1] == '`'
    ensures raw[3..3 + |language|] == language && raw[3 + |language|] == '\n'
    ensures raw[|language| + 4..|raw| - 3] == body
  {
  }

  lemma LanguageEnd(s: string, i: nat, q: nat, language: string)
    requires i <= q < |s| && s[i..q] == language && s[q] == '\n'
    requires forall k :: 0 <= k < |language| ==> IsWordChar(language[k])
    ensures WordEnd(s, i) == q
  {
    forall k | i <= k < q ensures IsWordChar(s[k]) {
      assert s[k] == s[i..q][k - i];
    }
    WordEndAt(s, i, q);
  }

  /** A run of word characters that stops at a non-word character ends there. */
  lemma {:induction false} WordEndAt(s: string, i: nat, q: nat)
    requires i <= q < |s| && !IsWordChar(s[q])
    requires forall k :: i <= k < q ==> IsWordChar(s[k])
    ensures WordEnd(s, i) == q
    decreases q - i
  {
    if i < q {
      WordEndAt(s, i + 1, q);
    }
  }

  lemma NoFenceInside(s: string, p: nat, end: nat, language: string, body: string, j: nat)
    requires p <= end <= |s|
    requires FenceShape(s[p..end], language, body)
    requires p + |language| + 4 <= j < end - 3
    ensures !DelimiterAt(s, j, Backticks)
  {
    var raw := s[p..end];
    assert !DelimiterAt(raw, j - p, Backticks);
    assert raw[j - p] == s[j] && raw[j - p + 1] == s[j + 1] && raw[j - p + 2] == s[j + 2];
  }

  /** Leftmost match of the code pattern at or after from (codeRegex.exec with
      lastIndex = from). */
  function FindCode(s: string, from: nat): (r: Option<CodeMatch>)
    requires from <= |s|
    ensures r.Some? ==> from <= r.value.start && r.value.start + 7 <= r.value.end <= |s|
    ensures r.Some? ==> s[r.value.start] == '`'
    ensures r.Some? ==> CodeMatchAt(s, r.value.start) == r
    decreases |s| - from
  {
    var m := CodeMatchAt(s, from);
    if m.Some? then m
    else if from == |s| then None
    else FindCode(s, from + 1)
  }

  /** The match FindCode returns is the leftmost one: no match starts between
      from and it, and when there is none, no match starts anywhere after from. */
  lemma {:induction false} FindCodeLeftmost(s: string, from: nat)
    requires from <= |s|
    ensures var r := FindCode(s, from);
      && (r.Some? ==> forall p :: from <= p < r.value.start ==> CodeMatchAt(s, p).None?)
      && (r.None? ==> forall p :: from <= p <= |s| ==> CodeMatchAt(s, p).None?)
    decreases |s| - from
  {
    if CodeMatchAt(s, from).None? && from < |s| {
      FindCodeLeftmost(s, from + 1);
    }
  }

  // ---------------------------------------------------------------------
  // The math pattern /(\$\$[\s\S]*?\$\$|\$[^\$\n]+\$)/g

  datatype MathMatch = MathMatch(start: nat, end: nat, display: bool)

  /** $$body$$ where the closing $$ is the first one after the opening one */
  predicate DisplayShape(raw: string)
  {
    && |raw| >= 4 && DelimiterAt(raw, 0, Dollars) && DelimiterAt(raw, |raw| - 2, Dollars)
    && (forall j :: 2 <= j < |raw| - 2 ==> !DelimiterAt(raw, j, Dollars))
  }

  /** $body$ where body is non-empty and holds neither $ nor a line feed */
  predicate InlineShape(raw: string)
  {
    && |raw| >= 3 && raw[0] == '$' && raw[|raw| - 1] == '$'
    && (forall k :: 0 < k < |raw| - 1 ==> raw[k] != '$' && raw[k] != '\n')
  }

  /** The match of the math pattern that starts exactly at p, if any. The
      display alternative is tried first; display is set exactly when the
      match begins with $$. */
  function MathMatchAt(s: string, p: nat): (r: Option<MathMatch>)
    requires p <= |s|
    ensures r.Some? ==> r.value.start == p && p + 3 <= r.value.end <= |s| && s[p] == '$'
    ensures r.Some? ==> (r.value.display <==> DelimiterAt(s, p, Dollars))
  {
    if DelimiterAt(s, p, Dollars) && FindDelimiter(s, Dollars, p + 2).Some? then
      Some(MathMatch(p, FindDelimiter(s, Dollars, p + 2).value + 2, true))
    else if p < |s| && s[p] == '$' then
      var j := InlineEnd(s, p + 1);
      if p + 1 < j < |s| && s[j] == '$' then Some(MathMatch(p, j + 1, false))
      else None
    else None
  }

  /** Every match of the math pattern has the display or the inline shape,
      as its flag says. */
  lemma MathMatchAtSound(s: string, p: nat)
    requires p <= |s| && MathMatchAt(s, p).Some?
    ensures var m := MathMatchAt(s, p).value;
      if m.display then DisplayShape(s[p..m.end]) else InlineShape(s[p..m.end])
  {
    var m := MathMatchAt(s, p).value;
    var raw := s[p..m.end];
    if m.display {
      FindDelimiterLeftmost(s, Dollars, p + 2);
      assert raw[0] == s[p] && raw[1] == s[p + 1];
      assert raw[|raw| - 2] == s[m.end - 2] && raw[|raw| - 1] == s[m.end - 1];
      forall j | 2 <= j < |raw| - 2 ensures !DelimiterAt(raw, j, Dollars) {
        assert !DelimiterAt(s, p + j, Dollars);
        assert raw[j] == s[p + j] && raw[j + 1] == s[p + j + 1];
      }
    } else {
      forall k | 0 < k < |raw| - 1 ensures raw[k] != '$' && raw[k] != '\n' {
        assert raw[k] == s[p + k];
      }
    }
  }

  /** Conversely, every span of the display or the inline shape starting at p
      is the match at p. */
  lemma MathMatchAtComplete(s: string, p: nat, end: nat, display: bool)
    requires p <= end <= |s|
    requires if display then DisplayShape(s[p..end]) else InlineShape(s[p..end])
    ensures MathMatchAt(s, p) == Some(MathMatch(p, end, display))
  {
    var raw := s[p..end];
    if display {
      assert raw[0] == s[p] && raw[1] == s[p + 1];
      assert raw[|raw| - 2] == s[end - 2] && raw[|raw| - 1] == s[end - 1];
      forall j | p + 2 <= j < end - 2 ensures !DelimiterAt(s, j, Dollars) {
        assert !DelimiterAt(raw, j - p, Dollars);
        assert raw[j - p] == s[j] && raw[j - p + 1] == s[j + 1];
      }
      FindDelimiterFirst(s, Dollars, p + 2, end - 2);
    } else {
      assert raw[0] == s[p] && raw[1] == s[p + 1] && raw[|raw| - 1] == s[end - 1];
      forall k | p + 1 <= k < end - 1 ensures s[k] != '$' && s[k] != '\n' {
        assert raw[k - p] == s[k];
      }
      InlineEndAt(s, p + 1, end - 1);
    }
  }

  /** A run of characters other than $ and line feed that stops at a $ ends there. */
  lemma {:induction false} InlineEndAt(s: string, i: nat, j: nat)
    requires i <= j < |s| && s[j] == '$'
    requires forall k :: i <= k < j ==> s[k] != '$' && s[k] != '\n'
    ensures InlineEnd(s, i) == j
    decreases j - i
  {
    if i < j {
      InlineEndAt(s, i + 1, j);
    }
  }

  /** Leftmost match of the math pattern at or after from. */
  function FindMath(s: string, from: nat): (r: Option<MathMatch>)
    requires from <= |s|
    ensures r.Some? ==> from <= r.value.start && r.value.start + 3 <= r.value.end <= |s|
    ensures r.Some? ==> s[r.value.start] == '$'
    ensures r.Some? ==> MathMatchAt(s, r.value.start) == r
    decreases |s| - from
  {
    var m := MathMatchAt(s, from);
    if m.Some? then m
    else if from == |s| then None
    else FindMath(s, from + 1)
  }

  /** The match FindMath returns is the leftmost one. */
  lemma {:induction false} FindMathLeftmost(s: string, from: nat)
    requires from <= |s|
    ensures var r := FindMath(s, from);
      && (r.Some? ==> forall p :: from <= p < r.value.start ==> MathMatchAt(s, p).None?)
      && (r.None? ==> forall p :: from <= p <= |s| ==> MathMatchAt(s, p).None?)
    decreases |s| - from
  {
    if MathMatchAt(s, from).None? && from < |s| {
      FindMathLeftmost(s, from + 1);
    }
  }

  /** s.replace(/\$/g, '') */
  function RemoveDollars(s: string): (r: string)
    ensures forall c :: c in r <==> c in s && c != '$'
    ensures '$' !in s ==> r == s
  {
    if s == [] then []
    else if s[0] == '$' then RemoveDollars(s[1..])
    else [s[0]] + RemoveDollars(s[1..])
  }

  /** Removing dollars works piecewise: the other characters keep their order
      and their number. With the two clauses above this fixes the result. */
  lemma {:induction false} RemoveDollarsAppend(a: string, b: string)
    ensures RemoveDollars(a + b) == RemoveDollars(a) + RemoveDollars(b)
    decreases |a|
  {
    if a != [] {
      assert (a + b)[1..] == a[1..] + b;
      RemoveDollarsAppend(a[1..], b);
    } else {
      assert a + b == b;
    }
  }

  // ---------------------------------------------------------------------
  // Segmentation: the spans the two passes cut a message into

  datatype Segment =
    | Plain(raw: string)                                  // text between matches
    | Fenced(raw: string, language: string, body: string) // a code match
    | Formula(raw: string, display: bool)                 // a math match

  /** The first pass from position from: for each code match, the text before
      it and the match itself. */
  function CodeSegments(s: string, from: nat): seq<Segment>
    requires from <= |s|
    decreases |s| - from
  {
    match FindCode(s, from)
    case None => []
    case Some(m) =>
      [Plain(s[from..m.start]), Fenced(s[m.start..m.end], m.language, m.body)]
      + CodeSegments(s, m.end)
  }

  /** Where the first pass stops: just after the last code match. */
  function CodeTail(s: string, from: nat): (t: nat)
    requires from <= |s|
    ensures from <= t <= |s|
    decreases |s| - from
  {
    match FindCode(s, from)
    case None => from
    case Some(m) => CodeTail(s, m.end)
  }

  /** The second pass over t from position from: for each math match, the text
      before it and the match, then the remaining text. */
  function MathSegments(t: string, from: nat): seq<Segment>
    requires from <= |t|
    decreases |t| - from
  {
    match FindMath(t, from)
    case None => [Plain(t[from..])]
    case Some(m) =>
      [Plain(t[from..m.start]), Formula(t[m.start..m.end], m.display)]
      + MathSegments(t, m.end)
  }

  /** All spans of a message: the first pass over the whole message, the
      second pass over what follows the last code match. */
  function Segments(s: string): seq<Segment>
  {
    var k := CodeTail(s, 0);
    CodeSegments(s, 0) + MathSegments(s[k..], 0)
  }

  /** The blocks one span contributes. */
  function Render(seg: Segment): seq<Block>
  {
    match seg
    case Plain(raw) =>
      var t := Trim(raw);
      if t == "" then [] else [Text(t)]
    case Fenced(_, language, body) =>
      [Code(if language == "" then DefaultLanguage else language, Trim(body))]
    case Formula(raw, display) =>
      [Math(display, Trim(RemoveDollars(raw)))]
  }

  /** A code match names its language, or gets "plaintext" when its
      language group is empty (match[1] || 'plaintext'). Its body is
      trimmed either way. */
  lemma CodeLanguage(raw: string, language: string, body: string)
    ensures language == "" ==> Render(Fenced(raw, language, body)) == [Code("plaintext", Trim(body))]
    ensures language != "" ==> Render(Fenced(raw, language, body)) == [Code(language, Trim(body))]
  {
  }

  function RenderAll(segs: seq<Segment>): seq<Block>
  {
    if segs == [] then [] else Render(segs[0]) + RenderAll(segs[1..])
  }

  /** The spans' raw texts, one after another. */
  function Concat(segs: seq<Segment>): string
  {
    if segs == [] then "" else segs[0].raw + Concat(segs[1..])
  }

  // ---------------------------------------------------------------------
  // The extractor

  /** Every block is well formed: text is non-empty and trimmed, code has a
      language and trimmed content, math content is trimmed and has no $. */
  predicate WellFormed(b: Block)
  {
    match b
    case Text(content) => content != "" && IsTrimmed(content)
    case Code(language, content) => language != "" && IsTrimmed(content)
    case Math(_, content) => '$' !in content && IsTrimmed(content)
  }

  /** extractBlocks(message): the code pass, then the math pass over what
      follows the last code block. */
  method ExtractBlocks(message: string) returns (blocks: seq<Block>)
    ensures blocks == RenderAll(Segments(message))
    ensures forall i :: 0 <= i < |blocks| ==> WellFormed(blocks[i])
    ensures forall i, j :: 0 <= i < j < |blocks| ==> !(blocks[i].Math? && blocks[j].Code?)
    ensures AllSpace(message) ==> blocks == []
  {
    var codeBlocks, currentPos := CodePass(message);
    var rest := message[currentPos..];
    var mathBlocks := MathPass(rest);
    blocks := codeBlocks + mathBlocks;
    RenderAllAppend(CodeSegments(message, 0), MathSegments(rest, 0));
    SegmentsRenderWellFormed(message);
    MathOnlyAfterCode(message);
    BlankMessageHasNoBlocks(message);
  }

  /** The first loop: code blocks and the text before each, left to right;
      currentPos ends just after the last code block. */
  method CodePass(message: string) returns (blocks: seq<Block>, currentPos: nat)
    ensures blocks == RenderAll(CodeSegments(message, 0))
    ensures currentPos == CodeTail(message, 0)
  {
    blocks := [];
    currentPos := 0;
    var found := FindCode(message, 0);
    while found.Some?
      invariant currentPos <= |message|
      invariant found == FindCode(message, currentPos)
      invariant blocks + RenderAll(CodeSegments(message, currentPos)) == RenderAll(CodeSegments(message, 0))
      invariant CodeTail(message, currentPos) == CodeTail(message, 0)
      decreases |message| - currentPos
    {
      var m := found.value;
      ghost var before := blocks;
      if currentPos < m.start {
        var text := Trim(message[currentPos..m.start]);
        if text != "" {
          blocks := blocks + [Text(text)];
        }
      }
      assert blocks == before + Render(Plain(message[currentPos..m.start]));
      blocks := blocks + [Code(if m.language == "" then DefaultLanguage else m.language, Trim(m.body))];
      CodeStep(message, currentPos, before);
      currentPos := m.end;
      found := FindCode(message, currentPos);
    }
  }

  /** The second loop, over the text after the last code block: formulas and
      the text before each, then the remaining text. */
  method MathPass(rest: string) returns (blocks: seq<Block>)
    ensures blocks == RenderAll(MathSegments(rest, 0))
  {
    blocks := [];
    var currentPos := 0;
    var found := FindMath(rest, 0);
    while found.Some?
      invariant currentPos <= |rest|
      invariant found == FindMath(rest, currentPos)
      invariant blocks + RenderAll(MathSegments(rest, currentPos)) == RenderAll(MathSegments(rest, 0))
      decreases |rest| - currentPos
    {
      var m := found.value;
      ghost var before := blocks;
      if currentPos < m.start {
        var text := Trim(rest[currentPos..m.start]);
        if text != "" {
          blocks := blocks + [Text(text)];
        }
      }
      assert blocks == before + Render(Plain(rest[currentPos..m.start]));
      var raw := rest[m.start..m.end];
      var display := raw[..2] == "$$";
      DisplayFlag(rest, m.start);
      blocks := blocks + [Math(display, Trim(RemoveDollars(raw)))];
      MathStep(rest, currentPos, before);
      currentPos := m.end;
      found := FindMath(rest, currentPos);
    }
    var text := Trim(rest[currentPos..]);
    if text != "" {
      blocks := blocks + [Text(text)];
    }
    assert RenderAll(MathSegments(rest, currentPos)) == Render(Plain(rest[currentPos..]));
  }

  // ---------------------------------------------------------------------
  // Proof steps for the loops

  lemma Regroup(before: seq<Block>, x: seq<Block>, y: seq<Block>, rest: seq<Block>)
    ensures before + x + y + rest == before + (x + y + rest)
  {
  }

  lemma {:induction false} RenderAllAppend(a: seq<Segment>, b: seq<Segment>)
    ensures RenderAll(a + b) == RenderAll(a) + RenderAll(b)
  {
    if a == [] {
      assert a + b == b;
    } else {
      assert (a + b)[0] == a[0] && (a + b)[1..] == a[1..] + b;
      RenderAllAppend(a[1..], b);
    }
  }

  lemma {:induction false} ConcatAppend(a: seq<Segment>, b: seq<Segment>)
    ensures Concat(a + b) == Concat(a) + Concat(b)
  {
    if a == [] {
      assert a + b == b;
    } else {
      assert (a + b)[0] == a[0] && (a + b)[1..] == a[1..] + b;
      ConcatAppend(a[1..], b);
    }
  }

  lemma RenderPair(x: Segment, y: Segment)
    ensures RenderAll([x, y]) == Render(x) + Render(y)
  {
    assert [x, y][1..] == [y];
    assert [y][1..] == [];
    assert RenderAll([y]) == Render(y) + [];
    assert Render(y) + [] == Render(y);
  }

  lemma ConcatPair(x: Segment, y: Segment)
    ensures Concat([x, y]) == x.raw + y.raw
  {
    assert [x, y][1..] == [y];
    assert [y][1..] == [];
    assert Concat([y]) == y.raw + "";
    assert y.raw + "" == y.raw;
  }

  lemma SliceSplit(s: string, a: nat, b: nat, c: nat, d: nat)
    requires a <= b <= c <= d <= |s|
    ensures s[a..d] == s[a..b] + s[b..c] + s[c..d]
  {
  }

  /** One iteration of the first loop keeps its invariant: the blocks so far,
      then the text before the match, then the code block, then what the rest
      of the pass gives, are all the pass gives. */
  lemma CodeStep(s: string, from: nat, before: seq<Block>)
    requires from <= |s| && FindCode(s, from).Some?
    requires before + RenderAll(CodeSegments(s, from)) == RenderAll(CodeSegments(s, 0))
    ensures var m := FindCode(s, from).value;
      && before + Render(Plain(s[from..m.start]))
         + [Code(if m.language == "" then DefaultLanguage else m.language, Trim(m.body))]
         + RenderAll(CodeSegments(s, m.end))
         == RenderAll(CodeSegments(s, 0))
      && CodeTail(s, from) == CodeTail(s, m.end)
  {
    var m := FindCode(s, from).value;
    var head := [Plain(s[from..m.start]), Fenced(s[m.start..m.end], m.language, m.body)];
    assert CodeSegments(s, from) == head + CodeSegments(s, m.end);
    RenderAllAppend(head, CodeSegments(s, m.end));
    RenderPair(head[0], head[1]);
    Regroup(before, Render(head[0]), Render(head[1]), RenderAll(CodeSegments(s, m.end)));
  }

  /** One iteration of the second loop keeps its invariant. */
  lemma MathStep(t: string, from: nat, before: seq<Block>)
    requires from <= |t| && FindMath(t, from).Some?
    requires before + RenderAll(MathSegments(t, from)) == RenderAll(MathSegments(t, 0))
    ensures var m := FindMath(t, from).value;
      before + Render(Plain(t[from..m.start]))
      + [Math(m.display, Trim(RemoveDollars(t[m.start..m.end])))]
      + RenderAll(MathSegments(t, m.end))
      == RenderAll(MathSegments(t, 0))
  {
    var m := FindMath(t, from).value;
    var head := [Plain(t[from..m.start]), Formula(t[m.start..m.end], m.display)];
    assert MathSegments(t, from) == head + MathSegments(t, m.end);
    RenderAllAppend(head, MathSegments(t, m.end));
    RenderPair(head[0], head[1]);
    Regroup(before, Render(head[0]), Render(head[1]), RenderAll(MathSegments(t, m.end)));
  }

  /** The extractor's test raw.startsWith('$$') gives the alternative that matched. */
  lemma DisplayFlag(t: string, p: nat)
    requires p <= |t| && MathMatchAt(t, p).Some?
    ensures var m := MathMatchAt(t, p).value;
      t[p..m.end][..2] == "$$" <==> m.display
  {
    var m := MathMatchAt(t, p).value;
    var head := t[p..m.end][..2];
    assert head[0] == t[p] && head[1] == t[p + 1];
    if head == "$$" {
      assert head[1] == '$';
    }
  }

  // ---------------------------------------------------------------------
  // Properties of the segmentation

  lemma {:induction false} CodeSegmentsCover(s: string, from: nat)
    requires from <= |s|
    ensures Concat(CodeSegments(s, from)) == s[from..CodeTail(s, from)]
    decreases |s| - from
  {
    match FindCode(s, from)
    case None =>
    case Some(m) =>
      var head := [Plain(s[from..m.start]), Fenced(s[m.start..m.end], m.language, m.body)];
      var t := CodeTail(s, from);
      CodeSegmentsCover(s, m.end);
      ConcatAppend(head, CodeSegments(s, m.end));
      ConcatPair(head[0], head[1]);
      SliceSplit(s, from, m.start, m.end, t);
  }

  lemma {:induction false} MathSegmentsCover(t: string, from: nat)
    requires from <= |t|
    ensures Concat(MathSegments(t, from)) == t[from..]
    decreases |t| - from
  {
    match FindMath(t, from)
    case None =>
      assert [Plain(t[from..])][1..] == [];
    case Some(m) =>
      var head := [Plain(t[from..m.start]), Formula(t[m.start..m.end], m.display)];
      MathSegmentsCover(t, m.end);
      ConcatAppend(head, MathSegments(t, m.end));
      ConcatPair(head[0], head[1]);
      SliceSplit(t, from, m.start, m.end, |t|);
  }

  /** The spans follow the message in order, do not overlap and leave nothing
      out: laid end to end they are the message. */
  lemma SegmentsCoverMessage(s: string)
    ensures Concat(Segments(s)) == s
  {
    var k := CodeTail(s, 0);
    var a, b := CodeSegments(s, 0), MathSegments(s[k..], 0);
    assert Segments(s) == a + b;
    CodeSegmentsCover(s, 0);
    MathSegmentsCover(s[k..], 0);
    CoverHalves(s, k, a, b);
  }

  lemma CoverHalves(s: string, k: nat, a: seq<Segment>, b: seq<Segment>)
    requires k <= |s| && Concat(a) == s[0..k] && Concat(b) == s[k..][0..]
    ensures Concat(a + b) == s
  {
    ConcatAppend(a, b);
    assert s[k..][0..] == s[k..];
    assert s[0..k] + s[k..] == s;
  }

  predicate SegmentShaped(seg: Segment)
  {
    match seg
    case Plain(_) => true
    case Fenced(raw, language, body) => FenceShape(raw, language, body)
    case Formula(raw, display) => if display then DisplayShape(raw) else InlineShape(raw)
  }

  lemma {:induction false} CodeSegmentsShaped(s: string, from: nat)
    requires from <= |s|
    ensures forall seg :: seg in CodeSegments(s, from) ==> SegmentShaped(seg)
    decreases |s| - from
  {
    match FindCode(s, from)
    case None =>
    case Some(m) =>
      CodeMatchAtSound(s, m.start);
      CodeSegmentsShaped(s, m.end);
  }

  lemma {:induction false} MathSegmentsShaped(t: string, from: nat)
    requires from <= |t|
    ensures forall seg :: seg in MathSegments(t, from) ==> SegmentShaped(seg)
    decreases |t| - from
  {
    match FindMath(t, from)
    case None =>
    case Some(m) =>
      MathMatchAtSound(t, m.start);
      MathSegmentsShaped(t, m.end);
  }

  /** Every code span is a fence with a word-character language, a line feed
      and the shortest body; every math span is a $$display$$ span with the
      first closing $$ or a one-line $inline$ span without $ inside. */
  lemma SegmentsShaped(s: string)
    ensures forall i :: 0 <= i < |Segments(s)| ==> SegmentShaped(Segments(s)[i])
  {
    var k := CodeTail(s, 0);
    var a, b := CodeSegments(s, 0), MathSegments(s[k..], 0);
    assert Segments(s) == a + b;
    CodeSegmentsShaped(s, 0);
    MathSegmentsShaped(s[k..], 0);
    var segs := a + b;
    forall i | 0 <= i < |segs| ensures SegmentShaped(segs[i]) {
      if i < |a| { assert segs[i] == a[i] && a[i] in a; }
      else { assert segs[i] == b[i - |a|] && b[i - |a|] in b; }
    }
  }

  lemma {:induction false} CodeSegmentsKinds(s: string, from: nat)
    requires from <= |s|
    ensures forall seg :: seg in CodeSegments(s, from) ==> !seg.Formula?
    decreases |s| - from
  {
    match FindCode(s, from)
    case None =>
    case Some(m) => CodeSegmentsKinds(s, m.end);
  }

  lemma {:induction false} MathSegmentsKinds(t: string, from: nat)
    requires from <= |t|
    ensures forall seg :: seg in MathSegments(t, from) ==> !seg.Fenced?
    decreases |t| - from
  {
    match FindMath(t, from)
    case None =>
    case Some(m) => MathSegmentsKinds(t, m.end);
  }

  lemma {:induction false} RenderAllWellFormed(segs: seq<Segment>)
    ensures forall b :: b in RenderAll(segs) ==> WellFormed(b)
  {
    if segs != [] {
      RenderAllWellFormed(segs[1..]);
    }
  }

  lemma SegmentsRenderWellFormed(s: string)
    ensures forall i :: 0 <= i < |RenderAll(Segments(s))| ==> WellFormed(RenderAll(Segments(s))[i])
  {
    RenderAllWellFormed(Segments(s));
  }

  lemma {:induction false} RenderAllKinds(segs: seq<Segment>)
    ensures (forall seg :: seg in segs ==> !seg.Formula?) ==> forall b :: b in RenderAll(segs) ==> !b.Math?
    ensures (forall seg :: seg in segs ==> !seg.Fenced?) ==> forall b :: b in RenderAll(segs) ==> !b.Code?
  {
    if segs != [] {
      RenderAllKinds(segs[1..]);
    }
  }

  /** Math is only looked for after the last code block: no math block is
      followed by a code block. */
  lemma MathOnlyAfterCode(s: string)
    ensures var blocks := RenderAll(Segments(s));
      forall i, j :: 0 <= i < j < |blocks| ==> !(blocks[i].Math? && blocks[j].Code?)
  {
    var k := CodeTail(s, 0);
    var a, b := CodeSegments(s, 0), MathSegments(s[k..], 0);
    assert Segments(s) == a + b;
    CodeSegmentsKinds(s, 0);
    MathSegmentsKinds(s[k..], 0);
    RenderAllKinds(a);
    RenderAllKinds(b);
    RenderAllAppend(a, b);
    NoMathBeforeCode(RenderAll(a), RenderAll(b));
  }

  lemma NoMathBeforeCode(x: seq<Block>, y: seq<Block>)
    requires forall b :: b in x ==> !b.Math?
    requires forall b :: b in y ==> !b.Code?
    ensures forall i, j :: 0 <= i < j < |x + y| ==> !((x + y)[i].Math? && (x + y)[j].Code?)
  {
    var blocks := x + y;
    forall i, j | 0 <= i < j < |blocks| ensures !(blocks[i].Math? && blocks[j].Code?) {
      if i < |x| { assert blocks[i] == x[i] && x[i] in x; }
      else { assert blocks[j] == y[j - |x|] && y[j - |x|] in y; }
    }
  }

  /** Text before the first code block is one text block, even when it holds
      dollar signs: math is not looked for there. */
  lemma TextBeforeFirstFenceIsUnsplit(s: string)
    requires FindCode(s, 0).Some?
    requires Trim(s[..FindCode(s, 0).value.start]) != ""
    ensures RenderAll(Segments(s))[0] == Text(Trim(s[..FindCode(s, 0).value.start]))
  {
    var k := CodeTail(s, 0);
    var m := FindCode(s, 0).value;
    RenderAllAppend(CodeSegments(s, 0), MathSegments(s[k..], 0));
    CodeStep(s, 0, []);
    assert [] + Render(Plain(s[..m.start])) == [Text(Trim(s[..m.start]))];
  }

  /** A message of whitespace only gives no blocks. */
  lemma BlankMessageHasNoBlocks(s: string)
    ensures AllSpace(s) ==> RenderAll(Segments(s)) == []
  {
    if AllSpace(s) {
      assert FindCode(s, 0).None?;
      assert Segments(s) == MathSegments(s, 0);
      assert FindMath(s, 0).None?;
      assert Trim(s) == "";
    }
  }
}
