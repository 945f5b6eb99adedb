/** The placeholder classifier and the random-option extractor: what the text between
    `{` and `}` turns into (src/parser.rs, parse_placeholder and parse_random_options). */
module Placeholder {
  import opened Models
  import opened Str

  /** The marker that makes a placeholder a random choice. */
  const RandomPrefix: string := "random|"

  /** The pieces of a `"`-split text that lie between two quotes: the odd-numbered
      ones, except an odd-numbered last piece, whose quote is never closed. */
  function Quoted(pieces: seq<string>): seq<string>
    decreases |pieces|
  {
    if |pieces| < 3 then []
    else if |pieces| % 2 == 0 then Quoted(pieces[..|pieces| - 1])
    else Quoted(pieces[..|pieces| - 2]) + [pieces[|pieces| - 2]]
  }

  /** The quoted options of a text: every closed `"..."` run verbatim (possibly empty),
      then the run after an unclosed final quote when it is not empty. */
  function QuotedOptions(input: string): seq<string>
  {
    var pieces := Split(input, '"');
    Quoted(pieces) + (if |pieces| % 2 == 0 && pieces[|pieces| - 1] != [] then [pieces[|pieces| - 1]] else [])
  }

  /** A fallback option: not empty, no whitespace, no comma at either end. */
  predicate IsBareOption(w: string)
  {
    w != [] && w[0] != ',' && w[|w| - 1] != ',' && NoWhitespace(w)
  }

  /** The words of a text with their leading and trailing commas dropped, empty ones
      left out. */
  function CommaWords(words: seq<string>): (r: seq<string>)
    requires forall k :: 0 <= k < |words| ==> NoWhitespace(words[k])
    ensures forall k :: 0 <= k < |r| ==> IsBareOption(r[k])
    ensures |r| <= |words|
    decreases |words|
  {
    if words == [] then []
    else
      var w := TrimChar(words[0], ',');
      var tail := CommaWords(words[1..]);
      if w == [] then tail
      else
        BareWhenKept(words[0]);
        [w] + tail
  }

  /** A word that keeps something after its commas are trimmed is a fallback option. */
  lemma BareWhenKept(word: string)
    requires NoWhitespace(word) && TrimChar(word, ',') != []
    ensures IsBareOption(TrimChar(word, ','))
  {
  }

  /** No word holds whitespace. */
  predicate SpaceFreeWords(words: seq<string>)
  {
    forall k :: 0 <= k < |words| ==> NoWhitespace(words[k])
  }

  /** Joining two word lists keeps them whitespace-free. */
  lemma SpaceFreeAppend(a: seq<string>, b: seq<string>)
    requires SpaceFreeWords(a) && SpaceFreeWords(b)
    ensures SpaceFreeWords(a + b)
  {
    forall k | 0 <= k < |a + b| ensures NoWhitespace((a + b)[k]) {
      if k >= |a| {
        assert (a + b)[k] == b[k - |a|];
      }
    }
  }

  /** The fallback works word by word, in order: the options of two word lists are those
      of the first followed by those of the second. */
  lemma {:induction false} CommaWordsAppend(a: seq<string>, b: seq<string>)
    requires SpaceFreeWords(a) && SpaceFreeWords(b)
    ensures SpaceFreeWords(a + b)
    ensures CommaWords(a + b) == CommaWords(a) + CommaWords(b)
    decreases |a|
  {
    SpaceFreeAppend(a, b);
    if a != [] {
      assert (a + b)[0] == a[0] && (a + b)[1..] == a[1..] + b;
      assert SpaceFreeWords(a[1..]);
      CommaWordsAppend(a[1..], b);
    } else {
      assert a + b == b;
    }
  }

  /** A word that keeps something after trimming gives that one option, ahead of the rest. */
  lemma CommaWordsKeeps(w: string, ws: seq<string>)
    requires NoWhitespace(w) && TrimChar(w, ',') != [] && SpaceFreeWords(ws)
    ensures SpaceFreeWords([w] + ws)
    ensures CommaWords([w] + ws) == [TrimChar(w, ',')] + CommaWords(ws)
  {
    assert SpaceFreeWords([w]);
    SpaceFreeAppend([w], ws);
    assert ([w] + ws)[0] == w && ([w] + ws)[1..] == ws;
  }

  /** A word made only of commas gives no option. */
  lemma CommaWordsDropsEmpty(w: string, ws: seq<string>)
    requires NoWhitespace(w) && TrimChar(w, ',') == [] && SpaceFreeWords(ws)
    ensures SpaceFreeWords([w] + ws)
    ensures CommaWords([w] + ws) == CommaWords(ws)
  {
    assert SpaceFreeWords([w]);
    SpaceFreeAppend([w], ws);
    assert ([w] + ws)[0] == w && ([w] + ws)[1..] == ws;
  }

  /** Words that are fallback options already come back unchanged. */
  lemma {:induction false} CommaWordsKeepsBare(ws: seq<string>)
    requires forall k :: 0 <= k < |ws| ==> NoWhitespace(ws[k]) && IsBareOption(ws[k])
    ensures CommaWords(ws) == ws
    decreases |ws|
  {
    if ws != [] {
      assert TrimChar(ws[0], ',') == ws[0];
      CommaWordsKeepsBare(ws[1..]);
      assert CommaWords(ws) == [ws[0]] + CommaWords(ws[1..]);
    }
  }

  /** The options used when there is no quoted one. */
  function FallbackOptions(input: string): seq<string>
  {
    CommaWords(Words(input))
  }

  /** What `parse_random_options` yields for the text after `random|`. */
  function RandomOptions(input: string): seq<string>
  {
    var quoted := QuotedOptions(input);
    if quoted != [] then quoted else FallbackOptions(input)
  }

  /** `parse_random_options`: one pass over the characters with an in-quote flag and
      the run collected so far, then the whitespace fallback. */
  method ParseRandomOptions(input: string) returns (options: seq<string>)
    ensures options == RandomOptions(input)
  {
    options := [];
    var inQuote := false;
    var current: string := [];
    for i := 0 to |input|
      invariant inQuote == (|Split(input[..i], '"')| % 2 == 0)
      invariant inQuote ==> current == Split(input[..i], '"')[|Split(input[..i], '"')| - 1]
      invariant !inQuote ==> current == []
      invariant options == Quoted(Split(input[..i], '"'))
    {
      QuoteStep(input, i);
      ParityStep(|Split(input[..i], '"')|);
      if input[i] == '"' {
        if inQuote {
          options := options + [current];
          current := [];
          inQuote := false;
        } else {
          inQuote := true;
        }
      } else if inQuote {
        current := current + [input[i]];
      }
    }
    assert input[..|input|] == input;
    if inQuote && current != [] {
      options := options + [current];
    }
    if options == [] {
      options := FallbackOptions(input);
    }
  }

  /** How one more character changes the quote pieces and the quoted options. */
  lemma QuoteStep(input: string, i: nat)
    requires i < |input|
    ensures var p, q := Split(input[..i], '"'), Split(input[..i + 1], '"');
      if input[i] == '"' then
        q == p + [[]]
        && Quoted(q) == (if |p| % 2 == 0 then Quoted(p) + [p[|p| - 1]] else Quoted(p))
      else
        |q| == |p| && q[|q| - 1] == p[|p| - 1] + [input[i]]
        && Quoted(q) == Quoted(p)
  {
    var p := Split(input[..i], '"');
    assert input[..i + 1] == input[..i] + [input[i]];
    SplitSnoc(input[..i], input[i], '"');
    if input[i] == '"' {
      QuotedAfterQuote(p);
    } else {
      QuotedAfterChar(p, input[i]);
    }
  }

  /** Splitting a text with one more character: a separator opens a new empty piece,
      any other character extends the last piece. */
  lemma SplitSnoc(s: string, c: char, sep: char)
    ensures Split(s + [c], sep)
         == if c == sep then Split(s, sep) + [[]]
            else var p := Split(s, sep); p[..|p| - 1] + [p[|p| - 1] + [c]]
  {
    assert (s + [c])[..|s|] == s;
  }

  /** A closing quote adds the run it closes; an opening quote adds nothing. */
  lemma QuotedAfterQuote(p: seq<string>)
    requires |p| >= 1
    ensures Quoted(p + [[]]) == if |p| % 2 == 0 then Quoted(p) + [p[|p| - 1]] else Quoted(p)
  {
    if |p| % 2 == 0 {
      EvenAtLeastTwo(|p|);
      QuoteCloses(p);
    } else {
      QuoteOpens(p);
    }
  }

  /** A quote after an even number of pieces closes the run in the last one. */
  lemma QuoteCloses(p: seq<string>)
    requires |p| >= 2 && |p| % 2 == 0
    ensures Quoted(p + [[]]) == Quoted(p) + [p[|p| - 1]]
  {
    var q := p + [[]];
    ParityStep(|p|);
    QuotedEven(p);
    QuotedOdd(q);
    assert q[..|q| - 2] == p[..|p| - 1];
  }

  /** A quote after an odd number of pieces opens a run. */
  lemma QuoteOpens(p: seq<string>)
    requires |p| % 2 == 1
    ensures Quoted(p + [[]]) == Quoted(p)
  {
    var q := p + [[]];
    ParityStep(|p|);
    QuotedEven(q);
    assert q[..|q| - 1] == p;
  }

  /** An even number of pieces ends inside a quote: the last piece is no closed run. */
  lemma QuotedEven(q: seq<string>)
    requires |q| >= 2 && |q| % 2 == 0
    ensures Quoted(q) == Quoted(q[..|q| - 1])
  {
  }

  /** An odd number of pieces ends outside a quote: the piece before last is a closed run. */
  lemma QuotedOdd(q: seq<string>)
    requires |q| >= 3 && |q| % 2 == 1
    ensures Quoted(q) == Quoted(q[..|q| - 2]) + [q[|q| - 2]]
  {
  }

  lemma EvenAtLeastTwo(n: nat)
    requires n >= 1 && n % 2 == 0
    ensures n >= 2
  {
  }

  /** The next number has the other parity. */
  lemma ParityStep(n: nat)
    ensures (n + 1) % 2 == 1 - n % 2
  {
  }

  /** Any other character adds nothing to the closed runs. */
  lemma QuotedAfterChar(p: seq<string>, c: char)
    requires |p| >= 1
    ensures Quoted(p[..|p| - 1] + [p[|p| - 1] + [c]]) == Quoted(p)
  {
    var q := p[..|p| - 1] + [p[|p| - 1] + [c]];
    assert q[..|q| - 1] == p[..|p| - 1];
    QuotedIgnoresLast(q, p);
  }

  /** The last piece is never a closed run. */
  lemma QuotedIgnoresLast(p: seq<string>, q: seq<string>)
    requires |p| == |q| >= 1 && p[..|p| - 1] == q[..|q| - 1]
    ensures Quoted(p) == Quoted(q)
  {
    var n := |p|;
    if n >= 3 {
      if n % 2 == 0 {
        assert Quoted(p) == Quoted(p[..n - 1]);
        assert Quoted(q) == Quoted(q[..n - 1]);
      } else {
        assert p[..n - 2] == p[..n - 1][..n - 2] == q[..n - 1][..n - 2] == q[..n - 2];
        assert p[n - 2] == p[..n - 1][n - 2] == q[n - 2];
      }
    }
  }

  /** The name part of a placeholder: what comes before the first `|`, trimmed. */
  function NamePart(trimmed: string): string
  {
    Trim(trimmed[..IndexOfFrom(trimmed, 0, '|')])
  }

  /** The description part: what comes after the first `|`, trimmed; None with no `|`. */
  function DescPart(trimmed: string): Option<string>
  {
    var bar := IndexOfFrom(trimmed, 0, '|');
    if bar < |trimmed| then Some(Trim(trimmed[bar + 1..])) else None
  }

  /** A placeholder whose trimmed text starts with `random|`. */
  predicate IsRandomForm(inner: string)
  {
    StartsWith(Trim(inner), RandomPrefix)
  }

  /** The option text of a random placeholder: what follows `random|`. */
  function RandomRest(inner: string): string
    requires IsRandomForm(inner)
  {
    Trim(inner)[|RandomPrefix|..]
  }

  /** `parse_placeholder`: `inner` is the text between the braces and `raw` the whole
      `{...}`; `draw` stands for the random pick among the options. None means "keep
      the placeholder as literal text". */
  function ParsePlaceholder(inner: string, raw: string, draw: nat): (r: Option<Token>)
    ensures r.Some? ==> r.value.Span() == raw
  {
    if IsRandomForm(inner) then
      var options := RandomOptions(RandomRest(inner));
      if options == [] then Some(Text(raw))
      else Some(Random(options, options[draw % |options|], raw))
    else
      var name := NamePart(Trim(inner));
      if name == [] then None
      else Some(Var(name, DescPart(Trim(inner)), raw))
  }

  /** The classifier never fails: a `random|` placeholder is a random choice among its
      options, or literal text when it has none; any other placeholder is a variable
      named by the trimmed text before the first `|`, described by the trimmed text
      after it, or literal text (None) when that name is empty. */
  lemma PlaceholderRules(inner: string, raw: string, draw: nat)
    ensures var r := ParsePlaceholder(inner, raw, draw);
      IsRandomForm(inner) ==>
        r.Some? && !r.value.Var? && (r.value.Text? <==> RandomOptions(RandomRest(inner)) == [])
        && (r.value.Random? ==> r.value.options == RandomOptions(RandomRest(inner)) && r.value.choice in r.value.options)
    ensures var r := ParsePlaceholder(inner, raw, draw);
      !IsRandomForm(inner) ==>
        (r.None? <==> NamePart(Trim(inner)) == [])
        && (r.Some? ==> r.value.Var? && r.value.name == NamePart(Trim(inner)) && r.value.desc == DescPart(Trim(inner)))
    ensures var r := ParsePlaceholder(inner, raw, draw);
      r.Some? && r.value.Var? ==>
        r.value.name != [] && IsTrimmed(r.value.name) && '|' !in r.value.name
        && (r.value.desc.Some? ==> IsTrimmed(r.value.desc.value))
  {
    RandomRule(inner, raw, draw);
    VariableRule(inner, raw, draw);
    VariableWellFormed(inner, raw, draw);
  }

  lemma RandomRule(inner: string, raw: string, draw: nat)
    ensures var r := ParsePlaceholder(inner, raw, draw);
      IsRandomForm(inner) ==>
        r.Some? && !r.value.Var? && (r.value.Text? <==> RandomOptions(RandomRest(inner)) == [])
        && (r.value.Random? ==> r.value.options == RandomOptions(RandomRest(inner)) && r.value.choice in r.value.options)
  {
  }

  lemma VariableRule(inner: string, raw: string, draw: nat)
    ensures var r := ParsePlaceholder(inner, raw, draw);
      !IsRandomForm(inner) ==>
        (r.None? <==> NamePart(Trim(inner)) == [])
        && (r.Some? ==> r.value.Var? && r.value.name == NamePart(Trim(inner)) && r.value.desc == DescPart(Trim(inner)))
  {
  }

  lemma VariableWellFormed(inner: string, raw: string, draw: nat)
    ensures var r := ParsePlaceholder(inner, raw, draw);
      r.Some? && r.value.Var? ==>
        r.value.name != [] && IsTrimmed(r.value.name) && '|' !in r.value.name
        && (r.value.desc.Some? ==> IsTrimmed(r.value.desc.value))
  {
    VariableParts(inner, raw, draw);
    NameHasNoBar(Trim(inner));
  }

  lemma VariableParts(inner: string, raw: string, draw: nat)
    ensures var r := ParsePlaceholder(inner, raw, draw);
      r.Some? && r.value.Var? ==>
        r.value.name != [] && r.value.name == NamePart(Trim(inner)) && r.value.desc == DescPart(Trim(inner))
  {
  }

  lemma NameHasNoBar(trimmed: string)
    ensures '|' !in NamePart(trimmed)
  {
    var before := trimmed[..IndexOfFrom(trimmed, 0, '|')];
    IndexOfFromFirst(trimmed, 0, '|');
    assert '|' !in before;
  }

  /** Every quoted option is one of the `"`-split pieces. */
  lemma {:induction false} QuotedArePieces(pieces: seq<string>)
    ensures forall o :: o in Quoted(pieces) ==> o in pieces
    decreases |pieces|
  {
    if |pieces| >= 3 {
      if |pieces| % 2 == 0 {
        QuotedArePieces(pieces[..|pieces| - 1]);
      } else {
        QuotedArePieces(pieces[..|pieces| - 2]);
      }
    }
  }

  /** Quoted options never hold a quote character: each is what lies between two quotes,
      or after a final unclosed one. */
  lemma QuotedOptionsHaveNoQuote(input: string)
    ensures forall o :: o in QuotedOptions(input) ==> '"' !in o
  {
    QuotedArePieces(Split(input, '"'));
  }

  /** A fallback option may hold a quote: a lone final `"` closes no run and opens an
      empty one, so no quoted option comes out, and the `"` becomes a word of its own. */
  lemma LoneQuoteIsAnOption()
    ensures RandomOptions("a \"") == ["a", "\""]
  {
    LoneQuotePieces();
    LoneQuoteWords();
    assert Quoted(["a ", ""]) == [];
    OptionsOfPlainWords("a \"", ["a", "\""]);
  }

  /** A text without quoted options whose words are already options offers those words. */
  lemma OptionsOfPlainWords(input: string, ws: seq<string>)
    requires QuotedOptions(input) == [] && Words(input) == ws
    requires forall k :: 0 <= k < |ws| ==> NoWhitespace(ws[k]) && IsBareOption(ws[k])
    ensures RandomOptions(input) == ws
  {
    CommaWordsKeepsBare(ws);
  }

  lemma LoneQuotePieces()
    ensures Split("a \"", '"') == ["a ", ""]
  {
    var input := "a \"";
    SplitWithout("a ", '"');
    assert input[..2] == "a ";
  }

  lemma LoneQuoteWords()
    ensures Words("a \"") == ["a", "\""]
  {
    var input, quote := "a \"", "\"";
    assert WordLength(input[1..]) == 0;
    assert input[..1] == "a" && input[1..] == " \"" && " \""[1..] == quote;
    assert quote[..1] == quote && quote[1..] == [];
  }

  /** Without any `"` the options are the comma-trimmed words. */
  lemma NoQuoteFallsBack(input: string)
    requires '"' !in input
    ensures RandomOptions(input) == FallbackOptions(input)
  {
    CountAbsent(input, '"');
  }

  /** A word as the fallback splits text: non-empty, no whitespace, no quote. */
  predicate PlainWord(w: string)
  {
    w != [] && NoWhitespace(w) && '"' !in w
  }

  /** A quote-free text of words separated by single spaces gives its words, each without
      its leading and trailing commas, the comma-only ones dropped. */
  lemma FallbackOfWords(ws: seq<string>)
    requires forall k :: 0 <= k < |ws| ==> PlainWord(ws[k])
    ensures SpaceFreeWords(ws)
    ensures RandomOptions(JoinWith(ws, ' ')) == CommaWords(ws)
  {
    JoinWithout(ws, ' ', '"');
    NoQuoteFallsBack(JoinWith(ws, ' '));
    WordsJoin(ws);
  }

  /** The fallback round trip: quote-free options written out separated by spaces are
      read back as the same options, in order. */
  lemma FallbackRoundTrip(os: seq<string>)
    requires forall k :: 0 <= k < |os| ==> NoWhitespace(os[k]) && IsBareOption(os[k]) && '"' !in os[k]
    ensures RandomOptions(JoinWith(os, ' ')) == os
  {
    FallbackOfWords(os);
    CommaWordsKeepsBare(os);
  }

  /** An option followed by a comma, as in a comma list, loses just that comma. */
  lemma TrailingCommaDropped(o: string)
    requires IsBareOption(o)
    ensures TrimChar(o + [','], ',') == o
  {
    var s := o + [','];
    assert s[..|s| - 1] == o;
    assert TrimStartChar(s, ',') == s;
  }

  /** Options written as a comma list: a comma after every one but the last. */
  function CommaSeparated(os: seq<string>): (r: seq<string>)
    ensures |r| == |os|
    ensures forall k :: 0 <= k < |r| ==> r[k] == os[k] + (if k < |os| - 1 then [','] else [])
    decreases |os|
  {
    if |os| <= 1 then os else [os[0] + [',']] + CommaSeparated(os[1..])
  }

  /** Every word is a fallback option. */
  predicate BareOptions(os: seq<string>)
  {
    forall k :: 0 <= k < |os| ==> IsBareOption(os[k])
  }

  /** The options after the first are options too. */
  lemma BareOptionsTail(os: seq<string>)
    requires BareOptions(os) && os != []
    ensures IsBareOption(os[0]) && BareOptions(os[1..])
  {
    assert forall k :: 0 <= k < |os| - 1 ==> os[1..][k] == os[k + 1];
  }

  /** The fallback reads a comma list back as the options it lists, in order. */
  lemma {:induction false} CommaListWords(os: seq<string>)
    requires BareOptions(os)
    ensures SpaceFreeWords(CommaSeparated(os))
    ensures CommaWords(CommaSeparated(os)) == os
    decreases |os|
  {
    if |os| <= 1 {
      assert forall k :: 0 <= k < |os| ==> NoWhitespace(os[k]) && IsBareOption(os[k]);
      CommaWordsKeepsBare(os);
    } else {
      BareOptionsTail(os);
      CommaListWords(os[1..]);
      CommaListCons(os[0], os[1..]);
      assert os == [os[0]] + os[1..];
    }
  }

  /** One step of a comma list: its first option, then the options of the rest. */
  lemma CommaListCons(o: string, rest: seq<string>)
    requires IsBareOption(o) && rest != [] && SpaceFreeWords(CommaSeparated(rest))
    ensures SpaceFreeWords(CommaSeparated([o] + rest))
    ensures CommaWords(CommaSeparated([o] + rest)) == [o] + CommaWords(CommaSeparated(rest))
  {
    CommaSeparatedCons(o, rest);
    TrailingCommaDropped(o);
    CommaStaysSpaceFree(o);
    CommaWordsKeeps(o + [','], CommaSeparated(rest));
  }

  /** A comma list of more than one option starts with the first option and a comma. */
  lemma CommaSeparatedCons(o: string, rest: seq<string>)
    requires rest != []
    ensures CommaSeparated([o] + rest) == [o + [',']] + CommaSeparated(rest)
  {
    var os := [o] + rest;
    assert os[0] == o && os[1..] == rest;
  }

  /** A comma is not whitespace. */
  lemma CommaStaysSpaceFree(o: string)
    requires NoWhitespace(o)
    ensures NoWhitespace(o + [','])
  {
    var w := o + [','];
    forall i | 0 <= i < |w| ensures !IsWhitespace(w[i]) {
      if i < |o| {
        assert w[i] == o[i];
      }
    }
  }

  /** The comma-list round trip: `random|a, b, c` offers `a`, `b` and `c`, for any
      quote-free options in place of those. */
  lemma CommaListRoundTrip(os: seq<string>)
    requires forall k :: 0 <= k < |os| ==> IsBareOption(os[k]) && '"' !in os[k]
    ensures RandomOptions(JoinWith(CommaSeparated(os), ' ')) == os
  {
    CommaSeparatedWords(os);
    FallbackOfWords(CommaSeparated(os));
    CommaListWords(os);
  }

  /** A comma list's words are non-empty, hold no whitespace and no quote. */
  lemma CommaSeparatedWords(os: seq<string>)
    requires forall k :: 0 <= k < |os| ==> IsBareOption(os[k]) && '"' !in os[k]
    ensures BareOptions(os)
    ensures forall k :: 0 <= k < |os| ==> PlainWord(CommaSeparated(os)[k])
  {
    var ws := CommaSeparated(os);
    forall k | 0 <= k < |ws| ensures PlainWord(ws[k]) {
      assert ws[k][..|os[k]|] == os[k];
      assert forall i :: |os[k]| <= i < |ws[k]| ==> ws[k][i] == ',';
    }
  }

  /** An absent character is counted zero times. */
  lemma {:induction false} CountAbsent(s: string, c: char)
    requires c !in s
    ensures Count(s, c) == 0
    decreases |s|
  {
    if s != [] {
      assert c !in s[..|s| - 1];
      CountAbsent(s[..|s| - 1], c);
    }
  }
}
