/** The heading splitter: cuts the prompts file into `(name, body)` templates at each
    `## title` line (src/parser.rs, parse_templates and its helpers). */
module Headings {
  import opened Models
  import opened Str

  /** The heading rule: two `#`, a space or a tab, then a title that is not blank. */
  predicate IsHeading(line: string)
  {
    |line| >= 3 && line[0] == '#' && line[1] == '#' && (line[2] == ' ' || line[2] == '\t')
    && !AllWhitespace(line[3..])
  }

  /** A title after `##` and one blank is blank exactly when the rest of the line is. */
  lemma BlankTitle(line: string)
    requires |line| >= 3 && IsWhitespace(line[2])
    ensures Trim(line[2..]) == [] <==> AllWhitespace(line[3..])
  {
    var rest := line[2..];
    assert rest[1..] == line[3..];
    if AllWhitespace(line[3..]) {
      forall i | 0 <= i < |rest| ensures IsWhitespace(rest[i]) {
        if i > 0 { assert rest[i] == line[3..][i - 1]; }
      }
    }
  }

  /** What a heading's title is: not empty, with no whitespace at either end. */
  predicate IsTitle(s: string)
  {
    s != [] && IsTrimmed(s)
  }

  /** `parse_heading`: the trimmed title of a heading line, None for any other line. */
  function ParseHeading(line: string): (r: Option<string>)
    ensures r.Some? <==> IsHeading(line)
    ensures r.Some? ==> IsTitle(r.value)
  {
    if |line| < 2 || line[0] != '#' || line[1] != '#' then None
    else if |line| < 3 || !(line[2] == ' ' || line[2] == '\t') then None
    else
      var title := Trim(line[2..]);
      BlankTitle(line);
      if title == [] then None else Some(title)
  }

  lemma NotHeadings()
    ensures ParseHeading("###x").None?
    ensures ParseHeading("## ").None?
    ensures ParseHeading("##x").None?
  {
    assert !IsHeading("###x");
    assert AllWhitespace("## "[3..]);
    assert !IsHeading("##x");
  }

  /** `trim_trailing_newline`: drops one trailing `\n`, then one trailing `\r`. */
  function TrimTrailingNewline(input: string): (r: string)
    ensures |r| <= |input| && r == input[..|r|]
    ensures input[|r|..] in {"", "\n", "\r", "\r\n"}
    ensures EndsWith(input, "\r\n") ==> |r| == |input| - 2
    ensures EndsWith(input, "\n") && !EndsWith(input, "\r\n") ==> |r| == |input| - 1
    ensures !EndsWith(input, "\n") && EndsWith(input, "\r") ==> |r| == |input| - 1
    ensures !EndsWith(input, "\n") && !EndsWith(input, "\r") ==> r == input
  {
    var trimmed := if EndsWith(input, "\n") then input[..|input| - 1] else input;
    var r := if EndsWith(trimmed, "\r") then trimmed[..|trimmed| - 1] else trimmed;
    assert input[|r|..] in {"", "\n", "\r", "\r\n"} by {
      if EndsWith(input, "\n") && EndsWith(trimmed, "\r") {
        assert input[|r|..] == "\r\n";
      } else if EndsWith(input, "\n") {
        assert input[|r|..] == "\n";
      } else if EndsWith(trimmed, "\r") {
        assert input[|r|..] == "\r";
      }
    }
    r
  }

  /** The body buffer of the source: every line followed by `\n`. */
  function JoinLines(ls: seq<string>): string
    decreases |ls|
  {
    if ls == [] then [] else ls[0] + "\n" + JoinLines(ls[1..])
  }

  /** Number of lines before the next heading (all of them when there is none). */
  function FirstHeading(ls: seq<string>): (n: nat)
    ensures n <= |ls|
    ensures n < |ls| ==> IsHeading(ls[n])
    ensures forall i :: 0 <= i < n ==> !IsHeading(ls[i])
    decreases |ls|
  {
    if ls == [] || IsHeading(ls[0]) then 0 else 1 + FirstHeading(ls[1..])
  }

  function CountHeadings(ls: seq<string>): nat
    decreases |ls|
  {
    if ls == [] then 0 else (if IsHeading(ls[0]) then 1 else 0) + CountHeadings(ls[1..])
  }

  /** The templates a list of lines holds: one per heading, named by its title, whose
      body is the lines up to the next heading; lines before the first heading are
      no template's. */
  function Sections(ls: seq<string>): seq<Template>
    decreases |ls|, 1
  {
    if ls == [] then []
    else match ParseHeading(ls[0])
      case None => Sections(ls[1..])
      case Some(title) => Open(title, [], ls[1..])
  }

  /** The templates still to come inside a section titled `title` whose body so far is
      `body`, with `rest` the lines after it: the section closes at the next heading. */
  function Open(title: string, body: string, rest: seq<string>): seq<Template>
    decreases |rest|, 2
  {
    var n := FirstHeading(rest);
    [Template(title, TrimTrailingNewline(body + JoinLines(rest[..n])))] + Sections(rest[n..])
  }

  /** What is still to come while the splitter holds the title `title` (None before the
      first heading) and the body `body`, with `rest` the lines not read yet. */
  function Pending(title: Option<string>, body: string, rest: seq<string>): seq<Template>
  {
    match title
    case None => Sections(rest)
    case Some(t) => Open(t, body, rest)
  }

  /** `parse_templates`: the line loop with its title and body buffers. */
  method ParseTemplates(content: string) returns (templates: seq<Template>)
    ensures templates == Sections(Lines(content))
    ensures |templates| == CountHeadings(Lines(content))
    ensures forall t :: t in templates ==> IsTitle(t.name)
  {
    var lines := Lines(content);
    templates := [];
    var current: Option<string> := None;
    var body: string := [];
    for i := 0 to |lines|
      invariant templates + Pending(current, body, lines[i..]) == Sections(lines)
      invariant current.None? ==> body == []
    {
      var title := ParseHeading(lines[i]);
      if title.Some? {
        HeadingStep(lines, i, templates, current, body, title.value, Sections(lines));
        if current.Some? {
          templates := templates + [Template(current.value, TrimTrailingNewline(body))];
          body := [];
        }
        current := title;
      } else {
        PlainLineStep(lines, i, templates, current, body, Sections(lines));
        if current.Some? {
          body := body + lines[i] + "\n";
        }
      }
    }
    PendingAtEnd(current, body);
    if current.Some? {
      templates := templates + [Template(current.value, TrimTrailingNewline(body))];
    }
    SectionCount(lines);
    SectionNames(lines);
  }

  /** The loop step at a heading line, for any goal `goal` the state is heading to. */
  lemma HeadingStep(lines: seq<string>, i: nat, done: seq<Template>, title: Option<string>, body: string,
                    next: string, goal: seq<Template>)
    requires i < |lines| && ParseHeading(lines[i]) == Some(next)
    requires done + Pending(title, body, lines[i..]) == goal
    ensures (if title.Some? then done + [Template(title.value, TrimTrailingNewline(body))] else done)
            + Pending(Some(next), [], lines[i + 1..]) == goal
  {
    PendingAtHeading(title, body, lines, i, next);
    var closed := if title.Some? then [Template(title.value, TrimTrailingNewline(body))] else [];
    AppendAssoc(done, closed, Pending(Some(next), [], lines[i + 1..]));
    assert done + closed == if title.Some? then done + [Template(title.value, TrimTrailingNewline(body))] else done;
  }

  lemma AppendAssoc(a: seq<Template>, b: seq<Template>, c: seq<Template>)
    ensures a + (b + c) == (a + b) + c
  {
  }

  /** The loop step at any other line. */
  lemma PlainLineStep(lines: seq<string>, i: nat, done: seq<Template>, title: Option<string>, body: string,
                      goal: seq<Template>)
    requires i < |lines| && ParseHeading(lines[i]).None?
    requires done + Pending(title, body, lines[i..]) == goal
    ensures done + Pending(title, if title.Some? then body + lines[i] + "\n" else body, lines[i + 1..]) == goal
  {
    PendingAtPlainLine(title, body, lines, i);
  }

  /** A heading closes the open section and opens its own. */
  lemma PendingAtHeading(title: Option<string>, body: string, lines: seq<string>, i: nat, next: string)
    requires i < |lines| && ParseHeading(lines[i]) == Some(next)
    ensures Pending(title, body, lines[i..])
            == (if title.Some? then [Template(title.value, TrimTrailingNewline(body))] else [])
               + Pending(Some(next), [], lines[i + 1..])
  {
    var rest := lines[i..];
    assert rest[1..] == lines[i + 1..];
    SectionsAtHeading(rest, next);
    if title.Some? {
      OpenAtHeading(title.value, body, rest);
    }
  }

  /** A heading line opens its section. */
  lemma SectionsAtHeading(rest: seq<string>, next: string)
    requires rest != [] && ParseHeading(rest[0]) == Some(next)
    ensures Sections(rest) == Open(next, [], rest[1..])
  {
  }

  /** A heading line closes the open section with the body it has. */
  lemma OpenAtHeading(title: string, body: string, rest: seq<string>)
    requires rest != [] && IsHeading(rest[0])
    ensures Open(title, body, rest) == [Template(title, TrimTrailingNewline(body))] + Sections(rest)
  {
    assert FirstHeading(rest) == 0;
    assert rest[..0] == [] && rest[0..] == rest;
    assert body + JoinLines([]) == body;
  }

  /** Any other line goes into the open section's body, or nowhere before the first
      heading. */
  lemma PendingAtPlainLine(title: Option<string>, body: string, lines: seq<string>, i: nat)
    requires i < |lines| && !IsHeading(lines[i])
    ensures Pending(title, body, lines[i..])
            == Pending(title, if title.Some? then body + lines[i] + "\n" else body, lines[i + 1..])
  {
    var rest := lines[i..];
    assert rest[1..] == lines[i + 1..];
    if title.Some? {
      var m := FirstHeading(rest[1..]);
      assert FirstHeading(rest) == 1 + m;
      assert rest[..1 + m][1..] == rest[1..][..m];
      assert rest[1 + m..] == rest[1..][m..];
      assert body + JoinLines(rest[..1 + m]) == (body + rest[0] + "\n") + JoinLines(rest[1..][..m]);
    }
  }

  /** At the end of the text the open section, if any, is the last template. */
  lemma PendingAtEnd(title: Option<string>, body: string)
    ensures Pending(title, body, [])
            == if title.Some? then [Template(title.value, TrimTrailingNewline(body))] else []
  {
    if title.Some? {
      var none: seq<string> := [];
      assert none[..0] == [] && none[0..] == [];
      assert body + JoinLines([]) == body;
    }
  }

  lemma {:induction false} CountSkipsPlainLines(ls: seq<string>, n: nat)
    requires n <= |ls|
    requires forall i :: 0 <= i < n ==> !IsHeading(ls[i])
    ensures CountHeadings(ls) == CountHeadings(ls[n..])
    decreases n
  {
    if n > 0 {
      assert ls[1..][n - 1..] == ls[n..];
      CountSkipsPlainLines(ls[1..], n - 1);
    }
  }

  /** There are exactly as many templates as heading lines. */
  lemma {:induction false} SectionCount(ls: seq<string>)
    ensures |Sections(ls)| == CountHeadings(ls)
    decreases |ls|
  {
    if ls != [] {
      if IsHeading(ls[0]) {
        var rest := ls[1..];
        var m := FirstHeading(rest);
        CountSkipsPlainLines(rest, m);
        SectionCount(rest[m..]);
      } else {
        SectionCount(ls[1..]);
      }
    }
  }

  /** Every template name is a non-empty, trimmed heading title. */
  lemma {:induction false} SectionNames(ls: seq<string>)
    ensures forall t :: t in Sections(ls) ==> IsTitle(t.name)
    decreases |ls|
  {
    if ls != [] {
      var h := ParseHeading(ls[0]);
      if h.Some? {
        var rest := ls[1..];
        var n := FirstHeading(rest);
        SectionNames(rest[n..]);
        assert Sections(ls) == Open(h.value, [], rest);
        assert Open(h.value, [], rest)
               == [Template(h.value, TrimTrailingNewline([] + JoinLines(rest[..n])))] + Sections(rest[n..]);
      } else {
        SectionNames(ls[1..]);
      }
    }
  }

  /** Lines before the first heading belong to no template. */
  lemma {:induction false} PreambleDropped(pre: seq<string>, rest: seq<string>)
    requires forall i :: 0 <= i < |pre| ==> !IsHeading(pre[i])
    ensures Sections(pre + rest) == Sections(rest)
    decreases |pre|
  {
    if pre != [] {
      assert (pre + rest)[1..] == pre[1..] + rest;
      PreambleDropped(pre[1..], rest);
    } else {
      assert pre + rest == rest;
    }
  }

  lemma {:induction false} JoinLinesSnoc(ls: seq<string>, x: string)
    ensures JoinLines(ls + [x]) == JoinLines(ls) + x + "\n"
    decreases |ls|
  {
    if ls == [] {
      assert [] + [x] == [x];
    } else {
      assert (ls + [x])[1..] == ls[1..] + [x];
      JoinLinesSnoc(ls[1..], x);
    }
  }

  /** The body buffer is the lines joined by `\n`, with the closing `\n` after them. */
  lemma {:induction false} JoinLinesIsJoin(ls: seq<string>)
    requires ls != []
    ensures JoinLines(ls) == JoinWith(ls, '\n') + "\n"
    decreases |ls|
  {
    var p, x := ls[..|ls| - 1], ls[|ls| - 1];
    assert ls == p + [x];
    JoinLinesSnoc(p, x);
    if p != [] {
      JoinLinesIsJoin(p);
    }
  }

  /** A template body is its lines joined by `\n`, less one final `\r` if the last line
      ends with one. */
  lemma BodyIsJoinedLines(ls: seq<string>)
    ensures TrimTrailingNewline(JoinLines(ls)) == StripCR(JoinWith(ls, '\n'))
  {
    if ls != [] {
      JoinLinesIsJoin(ls);
      var j := JoinWith(ls, '\n');
      assert (j + "\n")[..|j|] == j;
    }
  }
}
