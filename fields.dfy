/** The field extractor: one user-fillable field per distinct variable name, in the
    order the names first occur (src/parser.rs, collect_fields). */
module Fields {
  import opened Models

  /** What the form shows for a variable: `name (desc)` when the description is not
      empty, the bare name otherwise. */
  function Caption(name: string, desc: Option<string>): string
  {
    if desc.Some? && desc.value != [] then name + " (" + desc.value + ")" else name
  }

  /** The empty field a variable token opens. */
  function FieldOf(t: Token): Field
    requires t.Var?
  {
    Field(t.name, Caption(t.name, t.desc), [])
  }

  /** Some field of `fields` is named `name`. */
  predicate HasName(fields: seq<Field>, name: string)
  {
    exists i :: 0 <= i < |fields| && fields[i].name == name
  }

  /** What `collect_fields` yields: the fields of all tokens but the last, then the last
      token's field if it is a variable whose name has no field yet. */
  function FieldsOf(tokens: seq<Token>): seq<Field>
    decreases |tokens|
  {
    if tokens == [] then []
    else
      var fields := FieldsOf(tokens[..|tokens| - 1]);
      var t := tokens[|tokens| - 1];
      if t.Var? && !HasName(fields, t.name) then fields + [FieldOf(t)] else fields
  }

  /** `collect_fields`: one pass over the tokens, skipping a variable whose name already
      has a field. */
  method CollectFields(tokens: seq<Token>) returns (fields: seq<Field>)
    ensures fields == FieldsOf(tokens)
  {
    fields := [];
    for i := 0 to |tokens|
      invariant fields == FieldsOf(tokens[..i])
    {
      assert tokens[..i + 1][..i] == tokens[..i];
      var t := tokens[i];
      if t.Var? {
        if exists j :: 0 <= j < |fields| && fields[j].name == t.name {
          continue;
        }
        fields := fields + [FieldOf(t)];
      }
    }
    assert tokens[..|tokens|] == tokens;
  }

  /** Every collected field starts out empty. */
  lemma {:induction false} FieldsStartEmpty(tokens: seq<Token>)
    ensures forall i :: 0 <= i < |FieldsOf(tokens)| ==> FieldsOf(tokens)[i].value == []
    decreases |tokens|
  {
    if tokens != [] {
      FieldsStartEmpty(tokens[..|tokens| - 1]);
    }
  }

  /** `t` is a variable token named `name`. */
  predicate IsVarNamed(t: Token, name: string)
  {
    t.Var? && t.name == name
  }

  /** Where the variable `name` first occurs among `tokens`; `|tokens|` when it does not. */
  function Origin(tokens: seq<Token>, name: string): (r: nat)
    ensures r <= |tokens|
    ensures r < |tokens| ==> IsVarNamed(tokens[r], name)
    decreases |tokens|
  {
    if tokens == [] then 0
    else if IsVarNamed(tokens[0], name) then 0
    else 1 + Origin(tokens[1..], name)
  }

  /** No variable named `name` comes before its origin. */
  lemma {:induction false} OriginIsFirst(tokens: seq<Token>, name: string, j: nat)
    requires j < Origin(tokens, name)
    ensures !IsVarNamed(tokens[j], name)
    decreases |tokens|
  {
    if j > 0 {
      OriginIsFirst(tokens[1..], name, j - 1);
    }
  }

  /** How the origin moves when one more token is read. */
  lemma {:induction false} OriginSnoc(tokens: seq<Token>, t: Token, name: string)
    ensures Origin(tokens + [t], name)
         == if Origin(tokens, name) < |tokens| then Origin(tokens, name)
            else if IsVarNamed(t, name) then |tokens| else |tokens| + 1
    decreases |tokens|
  {
    if tokens == [] {
      assert [] + [t] == [t];
    } else {
      assert (tokens + [t])[1..] == tokens[1..] + [t];
      OriginSnoc(tokens[1..], t, name);
    }
  }

  /** The extracted fields are exactly the variables' first occurrences: names pairwise
      distinct, each field the one its name's first occurrence opens (so its value is
      empty and its caption comes from the first description), every variable name
      present, and the fields ordered by first occurrence. */
  predicate ExtractedFrom(fields: seq<Field>, tokens: seq<Token>)
  {
    (forall i, j :: 0 <= i < j < |fields| ==> fields[i].name != fields[j].name)
    && (forall i :: 0 <= i < |fields| ==>
          Origin(tokens, fields[i].name) < |tokens| && fields[i] == FieldOf(tokens[Origin(tokens, fields[i].name)]))
    && (forall k :: 0 <= k < |tokens| && tokens[k].Var? ==> HasName(fields, tokens[k].name))
    && (forall i, j :: 0 <= i < j < |fields| ==> Origin(tokens, fields[i].name) < Origin(tokens, fields[j].name))
  }

  /** `collect_fields` keeps one field per variable name, from its first occurrence, in
      first-occurrence order. */
  lemma {:induction false} FieldsExtracted(tokens: seq<Token>)
    ensures ExtractedFrom(FieldsOf(tokens), tokens)
    decreases |tokens|
  {
    if tokens != [] {
      var init, t := tokens[..|tokens| - 1], tokens[|tokens| - 1];
      assert tokens == init + [t];
      FieldsExtracted(init);
      ExtractedSnoc(FieldsOf(init), init, t);
    }
  }

  /** One more token keeps the fields extracted. */
  lemma ExtractedSnoc(fields: seq<Field>, tokens: seq<Token>, t: Token)
    requires ExtractedFrom(fields, tokens)
    ensures ExtractedFrom(if t.Var? && !HasName(fields, t.name) then fields + [FieldOf(t)] else fields, tokens + [t])
  {
    OriginsKept(fields, tokens, t);
    if t.Var? && !HasName(fields, t.name) {
      ExtractedAdd(fields, tokens, t);
    } else {
      ExtractedSkip(fields, tokens, t);
    }
  }

  /** A name that already has a field keeps its origin when one more token is read. */
  lemma OriginsKept(fields: seq<Field>, tokens: seq<Token>, t: Token)
    requires ExtractedFrom(fields, tokens)
    ensures forall i :: 0 <= i < |fields| ==> Origin(tokens + [t], fields[i].name) == Origin(tokens, fields[i].name)
  {
    forall i | 0 <= i < |fields|
      ensures Origin(tokens + [t], fields[i].name) == Origin(tokens, fields[i].name)
    {
      OriginSnoc(tokens, t, fields[i].name);
    }
  }

  /** A token that opens no field leaves the fields as they are. */
  lemma ExtractedSkip(fields: seq<Field>, tokens: seq<Token>, t: Token)
    requires ExtractedFrom(fields, tokens)
    requires t.Var? ==> HasName(fields, t.name)
    requires forall i :: 0 <= i < |fields| ==> Origin(tokens + [t], fields[i].name) == Origin(tokens, fields[i].name)
    ensures ExtractedFrom(fields, tokens + [t])
  {
    var all := tokens + [t];
    forall i | 0 <= i < |fields|
      ensures Origin(all, fields[i].name) < |all| && fields[i] == FieldOf(all[Origin(all, fields[i].name)])
    {
      assert all[Origin(tokens, fields[i].name)] == tokens[Origin(tokens, fields[i].name)];
    }
    forall k | 0 <= k < |all| && all[k].Var? ensures HasName(fields, all[k].name) {
      if k < |tokens| {
        assert all[k] == tokens[k];
      }
    }
  }

  /** A variable whose name has no field yet adds its field at the end. */
  lemma ExtractedAdd(fields: seq<Field>, tokens: seq<Token>, t: Token)
    requires ExtractedFrom(fields, tokens)
    requires t.Var? && !HasName(fields, t.name)
    requires forall i :: 0 <= i < |fields| ==> Origin(tokens + [t], fields[i].name) == Origin(tokens, fields[i].name)
    ensures ExtractedFrom(fields + [FieldOf(t)], tokens + [t])
  {
    OriginSnoc(tokens, t, t.name);
    if Origin(tokens, t.name) < |tokens| {
      assert false;
    }
    AddedDistinct(fields, t);
    AddedOrigins(fields, tokens, t);
    AddedCovers(fields, tokens, t);
    AddedOrdered(fields, tokens, t);
  }

  lemma AddedDistinct(fields: seq<Field>, t: Token)
    requires forall i, j :: 0 <= i < j < |fields| ==> fields[i].name != fields[j].name
    requires t.Var? && !HasName(fields, t.name)
    ensures var fs := fields + [FieldOf(t)];
      forall i, j :: 0 <= i < j < |fs| ==> fs[i].name != fs[j].name
  {
    var fs := fields + [FieldOf(t)];
    assert forall i :: 0 <= i < |fields| ==> fs[i] == fields[i] && fs[i].name != t.name;
  }

  lemma AddedOrigins(fields: seq<Field>, tokens: seq<Token>, t: Token)
    requires forall i :: 0 <= i < |fields| ==>
      Origin(tokens, fields[i].name) < |tokens| && fields[i] == FieldOf(tokens[Origin(tokens, fields[i].name)])
    requires t.Var? && Origin(tokens + [t], t.name) == |tokens|
    requires forall i :: 0 <= i < |fields| ==> Origin(tokens + [t], fields[i].name) == Origin(tokens, fields[i].name)
    ensures var all, fs := tokens + [t], fields + [FieldOf(t)];
      forall i :: 0 <= i < |fs| ==> Origin(all, fs[i].name) < |all| && fs[i] == FieldOf(all[Origin(all, fs[i].name)])
  {
    var all, fs := tokens + [t], fields + [FieldOf(t)];
    forall i | 0 <= i < |fs|
      ensures Origin(all, fs[i].name) < |all| && fs[i] == FieldOf(all[Origin(all, fs[i].name)])
    {
      if i < |fields| {
        assert fs[i] == fields[i];
        assert all[Origin(tokens, fields[i].name)] == tokens[Origin(tokens, fields[i].name)];
      } else {
        assert fs[i] == FieldOf(t) && all[|tokens|] == t;
      }
    }
  }

  lemma AddedCovers(fields: seq<Field>, tokens: seq<Token>, t: Token)
    requires forall k :: 0 <= k < |tokens| && tokens[k].Var? ==> HasName(fields, tokens[k].name)
    requires t.Var?
    ensures var all, fs := tokens + [t], fields + [FieldOf(t)];
      forall k :: 0 <= k < |all| && all[k].Var? ==> HasName(fs, all[k].name)
  {
    var all, fs := tokens + [t], fields + [FieldOf(t)];
    forall k | 0 <= k < |all| && all[k].Var? ensures HasName(fs, all[k].name) {
      if k < |tokens| {
        assert all[k] == tokens[k];
        var i :| 0 <= i < |fields| && fields[i].name == tokens[k].name;
        assert fs[i].name == all[k].name;
      } else {
        assert fs[|fields|].name == all[k].name;
      }
    }
  }

  lemma AddedOrdered(fields: seq<Field>, tokens: seq<Token>, t: Token)
    requires forall i :: 0 <= i < |fields| ==> Origin(tokens, fields[i].name) < |tokens|
    requires forall i, j :: 0 <= i < j < |fields| ==> Origin(tokens, fields[i].name) < Origin(tokens, fields[j].name)
    requires t.Var? && Origin(tokens + [t], t.name) == |tokens|
    requires forall i :: 0 <= i < |fields| ==> Origin(tokens + [t], fields[i].name) == Origin(tokens, fields[i].name)
    ensures var all, fs := tokens + [t], fields + [FieldOf(t)];
      forall i, j :: 0 <= i < j < |fs| ==> Origin(all, fs[i].name) < Origin(all, fs[j].name)
  {
    var all, fs := tokens + [t], fields + [FieldOf(t)];
    forall i, j | 0 <= i < j < |fs| ensures Origin(all, fs[i].name) < Origin(all, fs[j].name) {
      var a := fields[i].name;
      assert fs[i].name == a;
      assert Origin(all, a) == Origin(tokens, a) < |tokens|;
      if j < |fields| {
        var b := fields[j].name;
        assert fs[j].name == b;
        assert Origin(all, b) == Origin(tokens, b);
      } else {
        assert fs[j].name == t.name;
      }
    }
  }
}
