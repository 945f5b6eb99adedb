/** The records the template engine works on: templates, tokens, fields and the
    rows of the flattened title tree (src/models.rs). */
module Models {

  datatype Option<T> = None | Some(value: T)

  /** One `## title` section of the prompts file. */
  datatype Template = Template(name: string, body: string)

  /** One row of the flattened title tree (`caption` is the source's `label`); `templateIndex` is None for a folder. */
  datatype TreeItem = TreeItem(caption: string, depth: nat, templateIndex: Option<nat>)

  /** A user-fillable field; `name` is its key, `caption` (the source's `label`) what the form shows. */
  datatype Field = Field(name: string, caption: string, value: string)

  /** A piece of a template body. `raw` is the exact `{...}` text of a placeholder. */
  datatype Token =
    | Text(content: string)
    | Var(name: string, desc: Option<string>, raw: string)
    | Random(options: seq<string>, choice: string, raw: string)
  {
    /** The source text this token was cut from. */
    function Span(): string
    {
      match this
      case Text(content) => content
      case Var(_, _, raw) => raw
      case Random(_, _, raw) => raw
    }
  }

  /** The source text of a token sequence, token after token. */
  function Spans(tokens: seq<Token>): string
    decreases |tokens|
  {
    if tokens == [] then [] else tokens[0].Span() + Spans(tokens[1..])
  }

  /** One token's spans are its span. */
  lemma SpansSingle(t: Token)
    ensures Spans([t]) == t.Span()
  {
    assert Spans([t]) == t.Span() + Spans([]);
  }

  lemma {:induction false} SpansAppend(a: seq<Token>, b: seq<Token>)
    ensures Spans(a + b) == Spans(a) + Spans(b)
    decreases |a|
  {
    if a == [] {
      assert a + b == b;
    } else {
      assert (a + b)[1..] == a[1..] + b;
      SpansAppend(a[1..], b);
    }
  }
}
