/** The tokenizer: cuts a template body into literal text and placeholders
    (src/parser.rs, parse_tokens). */
module Tokenizer {
  import opened Models
  import opened Str
  import opened Placeholder

  /** What becomes of a closed `{...}` span: given the text between the braces, the whole
      span and a random draw, the token it turns into. */
  type Classifier = (string, string, nat) -> Token

  /** The classifier `parse_tokens` uses: the classified placeholder, or the span as
      literal text when it is not one. */
  function Classify(inner: string, raw: string, draw: nat): (t: Token)
    ensures t.Span() == raw
  {
    match ParsePlaceholder(inner, raw, draw)
    case None => Text(raw)
    case Some(token) => token
  }

  /** The literal text `body[from..to]` as a token, none when it is empty. */
  function TextOf(body: string, from: nat, to: nat): seq<Token>
    requires from <= to <= |body|
  {
    if from < to then [Text(body[from..to])] else []
  }

  /** The random pick for a placeholder whose `{` sits at position `p` of the body. */
  function Pick(draws: seq<nat>, p: nat): nat
  {
    if p < |draws| then draws[p] else 0
  }

  /** The token of the closed span `body[start..end + 1]`, from `{` to `}`. */
  function SpanToken(body: string, start: nat, end: nat, draws: seq<nat>, classify: Classifier): Token
    requires start < end < |body|
  {
    classify(body[start + 1..end], body[start..end + 1], Pick(draws, start))
  }

  /** The tokens of `body[index..]`; `draws` holds the random picks (see `Pick`). */
  function TokensFrom(body: string, index: nat, draws: seq<nat>, classify: Classifier): seq<Token>
    requires index <= |body|
    decreases |body| - index
  {
    var start := IndexOfFrom(body, index, '{');
    TextOf(body, index, start) + Placeholders(body, start, draws, classify)
  }

  /** The tokens from a `{` at `start` on (none at the end of the text): the span to the
      first `}` after it, or the rest of the text when no `}` follows. */
  function Placeholders(body: string, start: nat, draws: seq<nat>, classify: Classifier): seq<Token>
    requires start <= |body|
    decreases |body| - start, 0
  {
    if start == |body| then []
    else
      var end := IndexOfFrom(body, start + 1, '}');
      if end == |body| then [Text(body[start..])]
      else [SpanToken(body, start, end, draws, classify)] + TokensFrom(body, end + 1, draws, classify)
  }

  /** What `parse_tokens` makes of `body` when the random picks are `draws`. */
  function Tokens(body: string, draws: seq<nat>): seq<Token>
  {
    TokensFrom(body, 0, draws, Classify)
  }

  /** `parse_tokens`: a cursor loop that looks for the next `{`, then for the `}` closing
      it. */
  method ParseTokens(body: string, draws: seq<nat>) returns (tokens: seq<Token>)
    ensures tokens == Tokens(body, draws)
  {
    tokens := [];
    var index: nat := 0;
    var start := IndexOfFrom(body, index, '{');
    ghost var goal := Tokens(body, draws);
    while start < |body|
      invariant index <= start <= |body| && start == IndexOfFrom(body, index, '{')
      invariant tokens + TokensFrom(body, index, draws, Classify) == goal
      decreases |body| - index
    {
      ghost var done := tokens + TextOf(body, index, start);
      EnterPlaceholder(body, index, draws, tokens, goal, Classify);
      if start > index {
        tokens := tokens + [Text(body[index..start])];
      }
      assert tokens == done;
      var end := IndexOfFrom(body, start + 1, '}');
      if end < |body| {
        var inner := body[start + 1..end];
        var raw := body[start..end + 1];
        var token := ParsePlaceholder(inner, raw, Pick(draws, start));
        var t: Token;
        if token.Some? {
          t := token.value;
        } else {
          t := Text(raw);
        }
        PushedToken(inner, raw, Pick(draws, start), token, t);
        SpanTokenIsClassify(body, start, end, draws);
        tokens := tokens + [t];
        index := end + 1;
        ClosedStep(body, start, end, index, draws, done, goal, tokens, Classify);
      } else {
        tokens := tokens + [Text(body[start..])];
        index := |body|;
        UnclosedStep(body, start, draws, done, goal, tokens);
      }
      start := IndexOfFrom(body, index, '{');
    }
    LeaveText(body, index, draws, tokens, goal);
    if index < |body| {
      tokens := tokens + [Text(body[index..])];
    }
  }

  /** At a `{`, the tokens still to come are the text before it and what it opens. */
  lemma EnterPlaceholder(body: string, index: nat, draws: seq<nat>, tokens: seq<Token>, goal: seq<Token>,
                         classify: Classifier)
    requires index <= |body|
    requires tokens + TokensFrom(body, index, draws, classify) == goal
    ensures var start := IndexOfFrom(body, index, '{');
      tokens + TextOf(body, index, start) + Placeholders(body, start, draws, classify) == goal
  {
  }

  lemma SpanTokenIsClassify(body: string, start: nat, end: nat, draws: seq<nat>)
    requires start < end < |body|
    ensures SpanToken(body, start, end, draws, Classify)
         == Classify(body[start + 1..end], body[start..end + 1], Pick(draws, start))
  {
  }

  /** The token the loop pushes for a closed span is what `Classify` makes of it. */
  lemma PushedToken(inner: string, raw: string, draw: nat, token: Option<Token>, t: Token)
    requires token == ParsePlaceholder(inner, raw, draw)
    requires t == if token.Some? then token.value else Text(raw)
    ensures t == Classify(inner, raw, draw)
  {
  }

  /** The loop step at a `{` closed by a later `}`: the placeholder token, then the text
      up to the next `{`, then what that one opens. */
  lemma ClosedStep(body: string, start: nat, end: nat, index: nat, draws: seq<nat>, done: seq<Token>, goal: seq<Token>,
                   pushed: seq<Token>, classify: Classifier)
    requires start < |body|
    requires done + Placeholders(body, start, draws, classify) == goal
    requires end == IndexOfFrom(body, start + 1, '}') && end < |body|
    requires index == end + 1
    requires pushed == done + [SpanToken(body, start, end, draws, classify)]
    ensures pushed + TokensFrom(body, index, draws, classify) == goal
  {
    var x := SpanToken(body, start, end, draws, classify);
    var after := TokensFrom(body, index, draws, classify);
    ClosedSpan(body, start, end, draws, classify);
    Reassociate(done, x, after, goal);
  }

  lemma Reassociate(done: seq<Token>, x: Token, after: seq<Token>, goal: seq<Token>)
    requires done + ([x] + after) == goal
    ensures (done + [x]) + after == goal
  {
    assert done + ([x] + after) == (done + [x]) + after;
  }

  /** A `{` closed by a `}` opens its span's token, then the tokens after the `}`. */
  lemma ClosedSpan(body: string, start: nat, end: nat, draws: seq<nat>, classify: Classifier)
    requires start < end < |body| && end == IndexOfFrom(body, start + 1, '}')
    ensures Placeholders(body, start, draws, classify)
         == [SpanToken(body, start, end, draws, classify)] + TokensFrom(body, end + 1, draws, classify)
  {
  }

  /** The loop step at a `{` that no `}` follows: the rest of the text is one literal
      token and nothing comes after it. */
  lemma UnclosedStep(body: string, start: nat, draws: seq<nat>, done: seq<Token>, goal: seq<Token>, pushed: seq<Token>)
    requires start < |body|
    requires IndexOfFrom(body, start + 1, '}') == |body|
    requires done + Placeholders(body, start, draws, Classify) == goal
    requires pushed == done + [Text(body[start..])]
    ensures pushed + TokensFrom(body, |body|, draws, Classify) == goal
  {
    assert TokensFrom(body, |body|, draws, Classify) == [];
  }

  /** With no `{` left, the tokens still to come are the rest of the text, if any. */
  lemma LeaveText(body: string, index: nat, draws: seq<nat>, tokens: seq<Token>, goal: seq<Token>)
    requires index <= |body| && IndexOfFrom(body, index, '{') == |body|
    requires tokens + TokensFrom(body, index, draws, Classify) == goal
    ensures index < |body| ==> tokens + [Text(body[index..])] == goal
    ensures index == |body| ==> tokens == goal
  {
    assert TokensFrom(body, index, draws, Classify) == TextOf(body, index, |body|);
    assert body[index..|body|] == body[index..];
  }

  /** What the tokenizer asks of a classifier: the token it makes of a span is cut from
      exactly that span. */
  ghost predicate KeepsSpan(classify: Classifier)
  {
    forall inner, raw, draw :: classify(inner, raw, draw).Span() == raw
  }

  /** Tokenizing loses and adds nothing: the spans, in order, are the body. */
  lemma Coverage(body: string, draws: seq<nat>)
    ensures Spans(Tokens(body, draws)) == body
  {
    CoverageFrom(body, 0, draws, Classify);
    assert body[0..] == body;
  }

  lemma {:induction false} CoverageFrom(body: string, index: nat, draws: seq<nat>, classify: Classifier)
    requires index <= |body|
    requires KeepsSpan(classify)
    ensures Spans(TokensFrom(body, index, draws, classify)) == body[index..]
    decreases |body| - index, 2
  {
    var start := IndexOfFrom(body, index, '{');
    SpansAppend(TextOf(body, index, start), Placeholders(body, start, draws, classify));
    SpansOfText(body, index, start);
    CoverageAt(body, start, draws, classify);
    SliceSplit(body, index, start);
  }

  /** A token cut from `body[from..at]` followed by tokens covering `body[at..]` covers
      `body[from..]`. */
  lemma SpanThenRest(body: string, from: nat, at: nat, x: Token, after: seq<Token>)
    requires from <= at <= |body|
    requires x.Span() == body[from..at] && Spans(after) == body[at..]
    ensures Spans([x] + after) == body[from..]
  {
    SpansAppend([x], after);
    SpansSingle(x);
    SliceSplit(body, from, at);
  }

  lemma {:induction false} CoverageAfter(body: string, end: nat, draws: seq<nat>, classify: Classifier)
    requires end < |body|
    requires KeepsSpan(classify)
    ensures Spans(TokensFrom(body, end + 1, draws, classify)) == body[end + 1..]
    decreases |body| - end, 3
  {
    CoverageFrom(body, end + 1, draws, classify);
  }

  /** The token of a closed span is cut from that span. */
  lemma SpanTokenSpan(body: string, start: nat, end: nat, draws: seq<nat>, classify: Classifier)
    requires start < end < |body|
    requires KeepsSpan(classify)
    ensures SpanToken(body, start, end, draws, classify).Span() == body[start..end + 1]
  {
  }

  /** A suffix is cut in two at any point inside it. */
  lemma SliceSplit(s: string, from: nat, at: nat)
    requires from <= at <= |s|
    ensures s[from..] == s[from..at] + s[at..]
  {
  }

  lemma SpansOfText(body: string, from: nat, to: nat)
    requires from <= to <= |body|
    ensures Spans(TextOf(body, from, to)) == body[from..to]
  {
    if from < to {
      SpansSingle(Text(body[from..to]));
    }
  }

  lemma {:induction false} CoverageAt(body: string, start: nat, draws: seq<nat>, classify: Classifier)
    requires start <= |body|
    requires KeepsSpan(classify)
    ensures Spans(Placeholders(body, start, draws, classify)) == body[start..]
    decreases |body| - start, 1
  {
    if start < |body| {
      var end := IndexOfFrom(body, start + 1, '}');
      if end < |body| {
        CoverageClosed(body, start, end, draws, classify);
      } else {
        UnclosedSpan(body, start, draws, classify);
        SpansSingle(Text(body[start..]));
      }
    }
  }

  lemma {:induction false} CoverageClosed(body: string, start: nat, end: nat, draws: seq<nat>, classify: Classifier)
    requires start < end < |body| && end == IndexOfFrom(body, start + 1, '}')
    requires KeepsSpan(classify)
    ensures Spans(Placeholders(body, start, draws, classify)) == body[start..]
    decreases |body| - start, 0
  {
    var x := SpanToken(body, start, end, draws, classify);
    var after := TokensFrom(body, end + 1, draws, classify);
    assert Placeholders(body, start, draws, classify) == [x] + after by {
      ClosedSpan(body, start, end, draws, classify);
    }
    CoverageAfter(body, end, draws, classify);
    assert x.Span() == body[start..end + 1] by {
      SpanTokenSpan(body, start, end, draws, classify);
    }
    SpanThenRest(body, start, end + 1, x, after);
  }


  /** A body without `{` is one literal token, or none when it is empty. */
  lemma NoBrace(body: string, draws: seq<nat>)
    requires '{' !in body
    ensures Tokens(body, draws) == if body == [] then [] else [Text(body)]
  {
    assert IndexOfFrom(body, 0, '{') == |body|;
    assert Placeholders(body, |body|, draws, Classify) == [];
    assert body[0..|body|] == body;
  }

  /** A `{` that no `}` follows turns the rest of the body into the last token. */
  lemma UnclosedBrace(body: string, draws: seq<nat>, index: nat)
    requires index <= |body|
    requires var start := IndexOfFrom(body, index, '{');
      start < |body| && IndexOfFrom(body, start + 1, '}') == |body|
    ensures var start := IndexOfFrom(body, index, '{');
      TokensFrom(body, index, draws, Classify) == TextOf(body, index, start) + [Text(body[start..])]
  {
  }

  /** A placeholder span: `{`, then text without `}`, then the `}` closing it. */
  predicate IsBraced(raw: string)
  {
    |raw| >= 2 && raw[0] == '{' && raw[|raw| - 1] == '}' && '}' !in raw[1..|raw| - 1]
  }

  /** What the tokenizer guarantees about each token: no empty literal text; a variable
      with a trimmed, non-empty, bar-free name; a random choice among non-empty options;
      placeholders cut exactly from a `{` to the first `}` after it. */
  predicate WellFormed(t: Token)
  {
    match t
    case Text(content) => content != []
    case Var(name, desc, raw) =>
      name != [] && IsTrimmed(name) && '|' !in name && (desc.Some? ==> IsTrimmed(desc.value)) && IsBraced(raw)
    case Random(options, choice, raw) => options != [] && choice in options && IsBraced(raw)
  }

  predicate AllWellFormed(ts: seq<Token>)
  {
    forall k :: 0 <= k < |ts| ==> WellFormed(ts[k])
  }

  /** What the tokenizer asks of a classifier for well-formed output: a braced span
      becomes a well-formed token. */
  ghost predicate MakesWellFormed(classify: Classifier)
  {
    forall inner, raw, draw :: IsBraced(raw) ==> WellFormed(classify(inner, raw, draw))
  }

  lemma ClassifyMakesWellFormed()
    ensures MakesWellFormed(Classify)
  {
    forall inner, raw, draw | IsBraced(raw)
      ensures WellFormed(Classify(inner, raw, draw))
    {
      PlaceholderRules(inner, raw, draw);
    }
  }

  /** Every token the tokenizer produces is well formed. */
  lemma TokensWellFormed(body: string, draws: seq<nat>)
    ensures AllWellFormed(Tokens(body, draws))
  {
    ClassifyMakesWellFormed();
    WellFormedFrom(body, 0, draws, Classify);
  }

  lemma {:induction false} WellFormedFrom(body: string, index: nat, draws: seq<nat>, classify: Classifier)
    requires index <= |body|
    requires MakesWellFormed(classify)
    ensures AllWellFormed(TokensFrom(body, index, draws, classify))
    decreases |body| - index, 2
  {
    var start := IndexOfFrom(body, index, '{');
    WellFormedAt(body, start, draws, classify);
    WellFormedAppend(TextOf(body, index, start), Placeholders(body, start, draws, classify));
  }

  lemma {:induction false} WellFormedAt(body: string, start: nat, draws: seq<nat>, classify: Classifier)
    requires start <= |body|
    requires start < |body| ==> body[start] == '{'
    requires MakesWellFormed(classify)
    ensures AllWellFormed(Placeholders(body, start, draws, classify))
    decreases |body| - start, 1
  {
    if start < |body| {
      var end := IndexOfFrom(body, start + 1, '}');
      if end < |body| {
        WellFormedClosed(body, start, end, draws, classify);
      } else {
        UnclosedSpan(body, start, draws, classify);
      }
    }
  }

  lemma {:induction false} WellFormedClosed(body: string, start: nat, end: nat, draws: seq<nat>, classify: Classifier)
    requires start < end < |body| && end == IndexOfFrom(body, start + 1, '}') && body[start] == '{'
    requires MakesWellFormed(classify)
    ensures AllWellFormed(Placeholders(body, start, draws, classify))
    decreases |body| - start, 0
  {
    var x := SpanToken(body, start, end, draws, classify);
    SpanIsBraced(body, start, end);
    assert WellFormed(x);
    ClosedSpan(body, start, end, draws, classify);
    WellFormedAfter(body, end, draws, classify);
    WellFormedAppend([x], TokensFrom(body, end + 1, draws, classify));
  }


  lemma {:induction false} WellFormedAfter(body: string, end: nat, draws: seq<nat>, classify: Classifier)
    requires end < |body|
    requires MakesWellFormed(classify)
    ensures AllWellFormed(TokensFrom(body, end + 1, draws, classify))
    decreases |body| - end, 3
  {
    WellFormedFrom(body, end + 1, draws, classify);
  }

  /** A span from a `{` to the first `}` after it is braced. */
  lemma SpanIsBraced(body: string, start: nat, end: nat)
    requires start < end < |body| && body[start] == '{'
    requires end == IndexOfFrom(body, start + 1, '}')
    ensures IsBraced(body[start..end + 1])
  {
    var raw := body[start..end + 1];
    IndexOfFromFirst(body, start + 1, '}');
    assert |raw| == end + 1 - start;
    forall i | 1 <= i < |raw| - 1 ensures raw[i] != '}' {
      assert raw[i] == body[start + i];
    }
  }

  /** A `{` that no `}` follows opens the rest of the text as literal text. */
  lemma UnclosedSpan(body: string, start: nat, draws: seq<nat>, classify: Classifier)
    requires start < |body| && IndexOfFrom(body, start + 1, '}') == |body|
    ensures Placeholders(body, start, draws, classify) == [Text(body[start..])]
  {
  }

  lemma WellFormedAppend(a: seq<Token>, b: seq<Token>)
    requires AllWellFormed(a) && AllWellFormed(b)
    ensures AllWellFormed(a + b)
  {
    forall k | 0 <= k < |a + b| ensures WellFormed((a + b)[k]) {
      if k >= |a| {
        assert (a + b)[k] == b[k - |a|];
      }
    }
  }
}
