/** The renderer: the output text of a token sequence under the current field values and
    random choices (src/parser.rs, render_template). */
module Render {
  import opened Models
  import opened Tokenizer

  /** Where the first field named `name` sits; `|fields|` when there is none. */
  function FieldIndex(fields: seq<Field>, name: string): (r: nat)
    ensures r <= |fields|
    ensures r < |fields| ==> fields[r].name == name
    decreases |fields|
  {
    if fields == [] then 0
    else if fields[0].name == name then 0
    else 1 + FieldIndex(fields[1..], name)
  }

  /** No field before `FieldIndex` is named `name`. */
  lemma {:induction false} FieldIndexIsFirst(fields: seq<Field>, name: string, j: nat)
    requires j < FieldIndex(fields, name)
    ensures fields[j].name != name
    decreases |fields|
  {
    if j > 0 {
      FieldIndexIsFirst(fields[1..], name, j - 1);
    }
  }

  /** The value of the first field named `name`, empty when there is no such field. */
  function ValueOf(fields: seq<Field>, name: string): string
  {
    var i := FieldIndex(fields, name);
    if i < |fields| then fields[i].value else []
  }

  /** The text one token contributes: literal text as it is; a variable's value, or its
      raw span when that value is empty; a random choice, or its raw span when the choice
      is empty. */
  function Resolve(t: Token, fields: seq<Field>): string
  {
    match t
    case Text(content) => content
    case Var(name, _, raw) => var v := ValueOf(fields, name); if v == [] then raw else v
    case Random(_, choice, raw) => if choice == [] then raw else choice
  }

  /** The rendered text: each token's contribution, in order. */
  function Rendered(tokens: seq<Token>, fields: seq<Field>): string
    decreases |tokens|
  {
    if tokens == [] then [] else Rendered(tokens[..|tokens| - 1], fields) + Resolve(tokens[|tokens| - 1], fields)
  }

  /** `render_template`: appends each token's text to the output buffer. */
  method RenderTemplate(tokens: seq<Token>, fields: seq<Field>) returns (output: string)
    ensures output == Rendered(tokens, fields)
  {
    output := [];
    for i := 0 to |tokens|
      invariant output == Rendered(tokens[..i], fields)
    {
      assert tokens[..i + 1][..i] == tokens[..i];
      match tokens[i]
      case Text(text) =>
        output := output + text;
      case Var(name, _, raw) =>
        var k := FieldIndex(fields, name);
        var value := if k < |fields| then fields[k].value else [];
        if value == [] {
          output := output + raw;
        } else {
          output := output + value;
        }
      case Random(_, choice, raw) =>
        if choice == [] {
          output := output + raw;
        } else {
          output := output + choice;
        }
    }
    assert tokens[..|tokens|] == tokens;
  }

  /** No field named `name` holds a value. */
  predicate Unfilled(fields: seq<Field>, name: string)
  {
    forall i :: 0 <= i < |fields| && fields[i].name == name ==> fields[i].value == []
  }

  /** A variable renders the value of the first field with its name when that value is
      set, and its own raw span when that value is empty, when no field has its name, or
      when no field of that name holds a value. */
  lemma VarRendering(t: Token, fields: seq<Field>)
    requires t.Var?
    ensures forall i :: 0 <= i < |fields| && fields[i].name == t.name
              && (forall j :: 0 <= j < i ==> fields[j].name != t.name)
              ==> Resolve(t, fields) == if fields[i].value == [] then t.raw else fields[i].value
    ensures (forall i :: 0 <= i < |fields| ==> fields[i].name != t.name) ==> Resolve(t, fields) == t.raw
    ensures Unfilled(fields, t.name) ==> Resolve(t, fields) == t.raw
  {
    forall i | 0 <= i < |fields| && fields[i].name == t.name && (forall j :: 0 <= j < i ==> fields[j].name != t.name)
      ensures FieldIndex(fields, t.name) == i
    {
      if i < FieldIndex(fields, t.name) {
        FieldIndexIsFirst(fields, t.name, i);
      }
    }
  }

  /** With no random token and no field value set, rendering gives back the tokens' own
      source text: every placeholder shows its raw span. */
  lemma {:induction false} RenderUnfilled(tokens: seq<Token>, fields: seq<Field>)
    requires forall k :: 0 <= k < |tokens| ==> !tokens[k].Random?
    requires forall i :: 0 <= i < |fields| ==> fields[i].value == []
    ensures Rendered(tokens, fields) == Spans(tokens)
    decreases |tokens|
  {
    if tokens != [] {
      var init, t := tokens[..|tokens| - 1], tokens[|tokens| - 1];
      assert tokens == init + [t];
      RenderUnfilled(init, fields);
      SpansAppend(init, [t]);
      SpansSingle(t);
      if t.Var? {
        VarRendering(t, fields);
      }
    }
  }

  /** Round trip: a body whose placeholders are all variables, rendered before any field
      is filled, comes out unchanged. */
  lemma RoundTrip(body: string, draws: seq<nat>, fields: seq<Field>)
    requires forall k :: 0 <= k < |Tokens(body, draws)| ==> !Tokens(body, draws)[k].Random?
    requires forall i :: 0 <= i < |fields| ==> fields[i].value == []
    ensures Rendered(Tokens(body, draws), fields) == body
  {
    RenderUnfilled(Tokens(body, draws), fields);
    Coverage(body, draws);
  }
}
