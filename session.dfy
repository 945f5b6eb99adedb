/** The interactive state (src/app.rs): the template list with its selection, and the
    editing session opened on one template, whose fields the user fills in. */
module Session {
  import opened Models
  import opened Tokenizer
  import opened Fields
  import opened Render
  import opened Tree
  import opened Ui

  /** Which screen is showing. */
  datatype View = List | Editor | Error

  /** The field after `active` in a ring of `count` fields; `active` itself when there is
      no field. */
  function NextIndex(active: nat, count: nat): (r: nat)
    ensures count == 0 ==> r == active
    ensures count > 0 ==> r < count
    ensures count > 0 && active + 1 < count ==> r == active + 1
    ensures count > 0 && active + 1 == count ==> r == 0
  {
    if count == 0 then active else (active + 1) % count
  }

  /** The field before `active` in a ring of `count` fields; `active` itself when there is
      no field. */
  function PrevIndex(active: nat, count: nat): (r: nat)
    ensures count == 0 ==> r == active
    ensures count > 0 && active == 0 ==> r == count - 1
    ensures count > 0 && active > 0 ==> r == active - 1
    ensures active < count ==> r < count
  {
    if count == 0 then active else if active == 0 then count - 1 else active - 1
  }

  /** Moving forward then back, or back then forward, returns to the same field. */
  lemma NextPrevInverse(active: nat, count: nat)
    requires active < count
    ensures PrevIndex(NextIndex(active, count), count) == active
    ensures NextIndex(PrevIndex(active, count), count) == active
  {
  }

  /** The field reached after `steps` moves forward. */
  function Advance(active: nat, count: nat, steps: nat): nat
    decreases steps
  {
    if steps == 0 then active else NextIndex(Advance(active, count, steps - 1), count)
  }

  /** Moving forward from the first field visits every field in order, and the
      `count`-th move comes back to the first. */
  lemma {:induction false} NextCycles(count: nat, steps: nat)
    requires 0 < count && steps <= count
    ensures Advance(0, count, steps) == if steps == count then 0 else steps
    decreases steps
  {
    if steps > 0 {
      NextCycles(count, steps - 1);
    }
  }

  /** The fields after typing `ch` into field `active`: that field's value grows by `ch`,
      every other field stays; no field changes when `active` is out of range. */
  function Typed(fields: seq<Field>, active: nat, ch: char): (r: seq<Field>)
    ensures |r| == |fields|
    ensures forall j :: 0 <= j < |fields| && j != active ==> r[j] == fields[j]
    ensures active < |fields| ==> r[active] == fields[active].(value := fields[active].value + [ch])
  {
    if active < |fields| then fields[active := fields[active].(value := fields[active].value + [ch])]
    else fields
  }

  /** The fields after erasing in field `active`: that field's value loses its last char
      (an empty value stays empty), every other field stays; no field changes when
      `active` is out of range. */
  function Erased(fields: seq<Field>, active: nat): (r: seq<Field>)
    ensures |r| == |fields|
    ensures forall j :: 0 <= j < |fields| && j != active ==> r[j] == fields[j]
    ensures active < |fields| && fields[active].value == [] ==> r == fields
    ensures active < |fields| ==> r[active].name == fields[active].name && r[active].caption == fields[active].caption
    ensures active < |fields| && fields[active].value != [] ==>
              r[active].value + [fields[active].value[|fields[active].value| - 1]] == fields[active].value
  {
    if active < |fields| && fields[active].value != [] then
      var v := fields[active].value;
      fields[active := fields[active].(value := v[..|v| - 1])]
    else fields
  }

  /** Erasing undoes typing. */
  lemma ErasedUndoesTyped(fields: seq<Field>, active: nat, ch: char)
    ensures Erased(Typed(fields, active, ch), active) == fields
  {
    if active < |fields| {
      var v := fields[active].value;
      assert (v + [ch])[..|v|] == v;
    }
  }

  /** One token after a reroll: a random token with options keeps its options and its raw
      span and takes one of its options as its choice; every other token stays. */
  predicate RerolledToken(before: Token, after: Token)
  {
    if before.Random? && before.options != [] then
      after.Random? && after.options == before.options && after.raw == before.raw
      && after.choice in before.options
    else after == before
  }

  /** A whole token sequence after a reroll. */
  predicate Rerolled(before: seq<Token>, after: seq<Token>)
  {
    |after| == |before| && forall k :: 0 <= k < |before| ==> RerolledToken(before[k], after[k])
  }

  /** A reroll keeps the template text the tokens were cut from. */
  lemma {:induction false} RerollKeepsSpans(before: seq<Token>, after: seq<Token>)
    requires Rerolled(before, after)
    ensures Spans(after) == Spans(before)
    decreases |before|
  {
    if before != [] {
      assert RerolledToken(before[0], after[0]);
      RerollKeepsSpans(before[1..], after[1..]);
    }
  }

  /** A reroll keeps the fields the tokens open. */
  lemma {:induction false} RerollKeepsFields(before: seq<Token>, after: seq<Token>)
    requires Rerolled(before, after)
    ensures FieldsOf(after) == FieldsOf(before)
    decreases |before|
  {
    if before != [] {
      var n := |before| - 1;
      assert RerolledToken(before[n], after[n]);
      RerollKeepsFields(before[..n], after[..n]);
    }
  }

  /** A session opened on a body whose placeholders are all variables renders the body
      itself until a field is filled. */
  lemma FreshSessionRendersBody(body: string, draws: seq<nat>)
    requires forall k :: 0 <= k < |Tokens(body, draws)| ==> !Tokens(body, draws)[k].Random?
    ensures Rendered(Tokens(body, draws), FieldsOf(Tokens(body, draws))) == body
  {
    FieldsStartEmpty(Tokens(body, draws));
    RoundTrip(body, draws, FieldsOf(Tokens(body, draws)));
  }

  /** `EditorState`: the editing session of one template. */
  class EditorState {
    var templateIndex: nat
    var tokens: seq<Token>
    var fields: seq<Field>
    var activeField: nat
    var fieldScroll: nat

    /** `EditorState::new`: tokenizes the body, collects its fields, and puts the cursor
        on the first field. */
    constructor (templateIndex: nat, body: string, draws: seq<nat>)
      ensures this.templateIndex == templateIndex
      ensures tokens == Tokens(body, draws) && fields == FieldsOf(tokens)
      ensures activeField == 0 && fieldScroll == 0
    {
      var t := ParseTokens(body, draws);
      var f := CollectFields(t);
      this.templateIndex := templateIndex;
      tokens := t;
      fields := f;
      activeField := 0;
      fieldScroll := 0;
    }

    /** `next_field`: moves the cursor to the next field, wrapping from the last to the
        first. */
    method NextField()
      modifies this
      ensures activeField == NextIndex(old(activeField), |fields|)
      ensures |fields| > 0 ==> activeField < |fields|
      ensures fields == old(fields) && tokens == old(tokens)
      ensures templateIndex == old(templateIndex) && fieldScroll == old(fieldScroll)
    {
      if |fields| == 0 {
        return;
      }
      activeField := (activeField + 1) % |fields|;
    }

    /** `prev_field`: moves the cursor to the previous field, wrapping from the first to
        the last. */
    method PrevField()
      modifies this
      ensures activeField == PrevIndex(old(activeField), |fields|)
      ensures old(activeField) < |fields| ==> activeField < |fields|
      ensures fields == old(fields) && tokens == old(tokens)
      ensures templateIndex == old(templateIndex) && fieldScroll == old(fieldScroll)
    {
      if |fields| == 0 {
        return;
      }
      if activeField == 0 {
        activeField := |fields| - 1;
      } else {
        activeField := activeField - 1;
      }
    }

    /** `push_char`: appends `ch` to the value of the field under the cursor. */
    method PushChar(ch: char)
      modifies this
      ensures fields == Typed(old(fields), activeField, ch)
      ensures tokens == old(tokens) && activeField == old(activeField)
      ensures templateIndex == old(templateIndex) && fieldScroll == old(fieldScroll)
    {
      if activeField < |fields| {
        var field := fields[activeField];
        fields := fields[activeField := field.(value := field.value + [ch])];
      }
    }

    /** `backspace`: removes the last char of the value of the field under the cursor. */
    method Backspace()
      modifies this
      ensures fields == Erased(old(fields), activeField)
      ensures tokens == old(tokens) && activeField == old(activeField)
      ensures templateIndex == old(templateIndex) && fieldScroll == old(fieldScroll)
    {
      if activeField < |fields| {
        var value := fields[activeField].value;
        if value != [] {
          fields := fields[activeField := fields[activeField].(value := value[..|value| - 1])];
        }
      }
    }

    /** `reroll_random`: every random token with options takes a new choice among them.
        Which one is left open: any option may be picked. */
    method RerollRandom()
      modifies this
      ensures Rerolled(old(tokens), tokens)
      ensures fields == old(fields) && activeField == old(activeField)
      ensures templateIndex == old(templateIndex) && fieldScroll == old(fieldScroll)
    {
      ghost var before := tokens;
      for i := 0 to |tokens|
        invariant |tokens| == |before|
        invariant forall k :: 0 <= k < i ==> RerolledToken(before[k], tokens[k])
        invariant forall k :: i <= k < |tokens| ==> tokens[k] == before[k]
        invariant fields == old(fields) && activeField == old(activeField)
        invariant templateIndex == old(templateIndex) && fieldScroll == old(fieldScroll)
      {
        var token := tokens[i];
        if token.Random? && token.options != [] {
          assert token.options[0] in token.options;
          var pick :| pick in token.options;
          tokens := tokens[i := token.(choice := pick)];
        }
      }
    }
  }

  /** The selection a freshly loaded list starts with: the first row, if there is one. */
  function InitialSelection(items: seq<TreeItem>): (r: Option<nat>)
    ensures r.Some? <==> |items| > 0
    ensures r.Some? ==> r.value == 0
  {
    if |items| > 0 then Some(0) else None
  }

  /** `clamp`: `v` pulled into `[lo, hi]`. */
  function Clamp(v: int, lo: int, hi: int): (r: int)
    requires lo <= hi
    ensures lo <= r <= hi
    ensures lo <= v <= hi ==> r == v
    ensures v < lo ==> r == lo
    ensures v > hi ==> r == hi
  {
    if v < lo then lo else if v > hi then hi else v
  }

  /** A move that stays inside the list is undone by the opposite move. */
  lemma MoveUndone(current: int, delta: int, hi: int)
    requires 0 <= current <= hi && 0 <= current + delta <= hi
    ensures Clamp(Clamp(current + delta, 0, hi) - delta, 0, hi) == current
  {
  }

  /** `App`: the template list, its selection and scroll, and the open session. */
  class App {
    var templates: seq<Template>
    var treeItems: seq<TreeItem>
    var selected: Option<nat>
    var listScroll: nat
    var view: View
    var editor: Option<EditorState>
    var treeArea: Rect

    /** The rows are the title tree of the templates, and a selection names a row. */
    predicate Valid()
      reads this
    {
      treeItems == TreeItems(templates)
      && (selected.Some? ==> selected.value < |treeItems|)
    }

    /** `App::load`: on a successful load (`loaded` holds the templates) the list shows
        their title tree with the first row selected, if any; on a failed one (None) the
        error screen shows over an empty list. */
    constructor Load(loaded: Option<seq<Template>>)
      ensures Valid()
      ensures loaded.Some? ==> templates == loaded.value && view == List
      ensures loaded.None? ==> templates == [] && view == Error
      ensures selected == InitialSelection(treeItems)
      ensures listScroll == 0 && editor == None && treeArea == Rect(0, 0, 0, 0)
    {
      var ts := if loaded.Some? then loaded.value else [];
      var items := BuildTreeItems(ts);
      if loaded.None? {
        assert items == [] by {
          assert PathsOf([]) == [];
        }
      }
      templates := ts;
      treeItems := items;
      selected := if |items| > 0 then Some(0) else None;
      listScroll := 0;
      view := if loaded.Some? then List else Error;
      editor := None;
      treeArea := Rect(0, 0, 0, 0);
    }

    /** The reload after the prompts file was edited: the new templates replace the old,
        the selection goes back to the first row, the list back to the top. */
    method Reload(loaded: seq<Template>)
      modifies this
      ensures Valid()
      ensures templates == loaded && selected == InitialSelection(treeItems) && listScroll == 0
      ensures view == old(view) && editor == old(editor) && treeArea == old(treeArea)
    {
      var items := BuildTreeItems(loaded);
      treeItems := items;
      templates := loaded;
      selected := InitialSelection(items);
      listScroll := 0;
    }

    /** `move_list`: moves the selection by `delta` rows, stopping at either end; nothing
        happens on an empty list. */
    method MoveList(delta: int)
      modifies this
      ensures |treeItems| == 0 ==> selected == old(selected)
      ensures |treeItems| > 0 ==>
        var current := if old(selected).Some? then old(selected).value else 0;
        selected == Some(Clamp(current + delta, 0, |treeItems| - 1) as nat)
      ensures |treeItems| > 0 ==> selected.Some? && selected.value < |treeItems|
      ensures old(Valid()) ==> Valid()
      ensures templates == old(templates) && treeItems == old(treeItems)
      ensures listScroll == old(listScroll) && view == old(view) && editor == old(editor)
      ensures treeArea == old(treeArea)
    {
      var len := |treeItems|;
      if len == 0 {
        return;
      }
      var current := if selected.Some? then selected.value else 0;
      var next := current + delta;
      if next < 0 {
        next := 0;
      } else if next > len - 1 {
        next := len - 1;
      }
      selected := Some(next as nat);
    }

    /** `index_from_mouse`: the row under the mouse cell (`column`, `row`), if the tree area
        has room, the cell lies in it, and a row is listed there. */
    function IndexFromMouse(column: nat, row: nat): (r: Option<nat>)
      reads this
      ensures r.Some? <==>
        treeArea.width > 0 && treeArea.height > 0
        && treeArea.x <= column < treeArea.x + treeArea.width
        && treeArea.y <= row < treeArea.y + treeArea.height
        && listScroll + (row - treeArea.y) < |treeItems|
      ensures r.Some? ==> r.value == listScroll + (row - treeArea.y) && r.value < |treeItems|
    {
      var area := treeArea;
      if area.width == 0 || area.height == 0 then None
      else if column < area.x || column >= area.x + area.width || row < area.y || row >= area.y + area.height then None
      else
        var index := listScroll + (row - area.y);
        if index >= |treeItems| then None else Some(index)
    }

    /** The template `open_selected_template` opens: the one of the selected row, when
        there is a selected row, it is a template and not a folder, and that template
        exists. */
    function OpenTarget(): (r: Option<nat>)
      reads this
      ensures r.Some? ==> r.value < |templates|
      ensures r.Some? <==> selected.Some? && selected.value < |treeItems|
                           && treeItems[selected.value].templateIndex.Some?
                           && treeItems[selected.value].templateIndex.value < |templates|
    {
      if selected.None? || selected.value >= |treeItems| then None
      else
        var item := treeItems[selected.value];
        if item.templateIndex.None? || item.templateIndex.value >= |templates| then None
        else Some(item.templateIndex.value)
    }

    /** `open_selected_template`: opens a new session on the selected template and shows
        the editor; leaves everything as it is when no template is selected. */
    method OpenSelectedTemplate(draws: seq<nat>)
      modifies this
      ensures templates == old(templates) && treeItems == old(treeItems)
      ensures selected == old(selected) && listScroll == old(listScroll) && treeArea == old(treeArea)
      ensures old(OpenTarget()).None? ==> view == old(view) && editor == old(editor)
      ensures old(OpenTarget()).Some? ==>
        var t := old(OpenTarget()).value;
        view == Editor && editor.Some? && fresh(editor.value)
        && editor.value.templateIndex == t
        && editor.value.tokens == Tokens(templates[t].body, draws)
        && editor.value.fields == FieldsOf(editor.value.tokens)
        && editor.value.activeField == 0 && editor.value.fieldScroll == 0
    {
      if selected.None? {
        return;
      }
      var index := selected.value;
      if index >= |treeItems| || treeItems[index].templateIndex.None? {
        return;
      }
      var templateIndex := treeItems[index].templateIndex.value;
      if templateIndex >= |templates| {
        return;
      }
      var template := templates[templateIndex];
      var session := new EditorState(templateIndex, template.body, draws);
      editor := Some(session);
      view := Editor;
    }

    /** `copy_rendered`: the text handed to the clipboard, which is the open session's
        tokens rendered with its current field values; nothing when no session is open. */
    method CopyRendered() returns (text: Option<string>)
      ensures text.Some? <==> editor.Some?
      ensures text.Some? ==> text.value == Rendered(editor.value.tokens, editor.value.fields)
    {
      if editor.None? {
        return None;
      }
      var session := editor.value;
      var rendered := RenderTemplate(session.tokens, session.fields);
      text := Some(rendered);
    }
  }

  /** In a consistent list, selecting a template row always opens that template: the
      check that the template exists never fails. */
  lemma TemplateRowsOpen(app: App)
    requires app.Valid()
    requires app.selected.Some? && app.treeItems[app.selected.value].templateIndex.Some?
    ensures app.OpenTarget() == app.treeItems[app.selected.value].templateIndex
  {
    TreeItemsIndexTemplates(app.templates);
  }

  /** A clicked row is one the list shows: it lies in the window the list is drawn from
      when the tree area is its drawing area. */
  lemma ClickedRowIsShown(app: App, column: nat, row: nat)
    requires app.IndexFromMouse(column, row).Some?
    ensures var i := app.IndexFromMouse(column, row).value;
      app.listScroll <= i < VisibleEnd(app.listScroll, |app.treeItems|, app.treeArea.height)
  {
  }
}
