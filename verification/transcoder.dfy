/** The transcoder (xml_to_config in main.py): one pass over the elements
    in pre-order, emitting lines of the config language and binding
    constants as it goes.

    `Step` and `Run` are the reference definition: what one element does to
    the state (the constants map and the output lines), and the left fold of
    that over a sequence of elements, where the first error ends the fold.
    `Transcode` and `DictionaryBlock` are the two loops of the source,
    proved to compute exactly that. */
module Transcoder {
  import opened Outcomes
  import opened Lexical
  import opened Evaluator
  import opened Documents

  /** COMMENT_START and COMMENT_END. */
  const CommentStart := "{{!--"
  const CommentEnd := "--}}"

  function CommentBlock(text: string): string
  {
    CommentStart + "\n" + text + "\n" + CommentEnd
  }

  function DefLine(name: string, value: string): string
  {
    "(def " + name + " " + value + ")"
  }

  function EntryLine(name: string, value: string): string
  {
    "  " + name + " : " + value + ","
  }

  function ExprLine(expr: string, result: string): string
  {
    CommentStart + " " + expr + " : " + result + " " + CommentEnd
  }

  /** str(result) in the f-string that prints an expression's value. */
  function Render(v: Value): string
  {
    match v
    case Num(n) => IntToString(n)
    case Text(s) => s
  }

  /** The state a loop carries: the constants dict and a list of lines
      (the output list, or the dictionary_lines list of a dictionary). */
  datatype State = State(constants: map<string, int>, output: seq<string>)

  /** The checks made on a `const` or `entry` element: its `name` must
      match NAME_REGEX and its `value` NUMBER_REGEX, the name checked first.
      A missing attribute is an error too (Python's re.match on None). */
  function Binding(e: Element): (r: Result<(string, string)>)
    ensures r.Ok? <==> "name" in e.attrs && NameMatch(e.attrs["name"]) && "value" in e.attrs && NumberMatch(e.attrs["value"])
    ensures r.Ok? ==> r.value == (e.attrs["name"], e.attrs["value"])
  {
    if "name" !in e.attrs then Err(MissingAttribute("name"))
    else if !NameMatch(e.attrs["name"]) then Err(InvalidName(e.attrs["name"]))
    else if "value" !in e.attrs then Err(MissingAttribute("value"))
    else if !NumberMatch(e.attrs["value"]) then Err(InvalidValue(e.attrs["value"]))
    else Ok((e.attrs["name"], e.attrs["value"]))
  }

  // ---------------------------------------------------------------------
  // The reference definition

  /** One child of a dictionary: an `entry` is checked, bound and printed;
      any other child is skipped. */
  function EntryStep(x: Element, acc: State): Result<State>
  {
    if x.tag != "entry" then Ok(acc)
    else
      match Binding(x)
      case Err(err) => Err(err)
      case Ok(p) => Ok(State(acc.constants[p.0 := NumberValue(p.1)], acc.output + [EntryLine(p.0, p.1)]))
  }

  /** The children of a dictionary processed in order; the first error ends it. */
  function EntryFold(acc: State, cs: seq<Element>): Result<State>
  {
    if cs == [] then Ok(acc)
    else
      match EntryFold(acc, cs[..|cs| - 1])
      case Err(err) => Err(err)
      case Ok(s) => EntryStep(cs[|cs| - 1], s)
  }

  /** What a `dictionary` element produces: its lines, from `$[` to `]`,
      and the constants map with its entries bound. */
  function DictionaryStep(children: seq<Element>, constants: map<string, int>): Result<State>
  {
    match EntryFold(State(constants, ["$["]), children)
    case Err(err) => Err(err)
    case Ok(s) => Ok(State(s.constants, s.output + ["]"]))
  }

  /** The effect of one element of the walk, dispatched on its tag. */
  function Step(e: Element, st: State): Result<State>
  {
    if e.tag == "comment" then
      match e.text
      case None => Err(MissingText)
      case Some(t) => Ok(State(st.constants, st.output + [CommentBlock(Strip(t, IsSpace))]))
    else if e.tag == "const" then
      match Binding(e)
      case Err(err) => Err(err)
      case Ok(p) => Ok(State(st.constants[p.0 := NumberValue(p.1)], st.output + [DefLine(p.0, p.1)]))
    else if e.tag == "dictionary" then
      match DictionaryStep(e.children, st.constants)
      case Err(err) => Err(err)
      case Ok(d) => Ok(State(d.constants, st.output + d.output))
    else if e.tag == "expr" then
      if "value" !in e.attrs then Err(MissingAttribute("value"))
      else
        match Evaluate(e.attrs["value"], st.constants)
        case Err(err) => Err(err)
        case Ok(v) => Ok(State(st.constants, st.output + [ExprLine(e.attrs["value"], Render(v))]))
    else
      Ok(st)
  }

  /** The elements processed in order from `st`; the first error ends it. */
  function Run(st: State, es: seq<Element>): Result<State>
  {
    if es == [] then Ok(st)
    else
      match Run(st, es[..|es| - 1])
      case Err(err) => Err(err)
      case Ok(s) => Step(es[|es| - 1], s)
  }

  const Initial := State(map[], [])

  /** xml_to_config(tree): the output lines joined with newlines, or the
      first error. */
  function Convert(root: Element): Result<string>
  {
    match Run(Initial, Flatten(root))
    case Err(err) => Err(err)
    case Ok(s) => Ok(Join(s.output, "\n"))
  }

  // ---------------------------------------------------------------------
  // The loops of the source

  /** The inner loop over a dictionary's children, building dictionary_lines
      and binding each entry. */
  method DictionaryBlock(children: seq<Element>, constants: map<string, int>) returns (r: Result<State>)
    ensures r == DictionaryStep(children, constants)
  {
    var lines := ["$["];
    var bound := constants;
    var j := 0;
    while j < |children|
      invariant 0 <= j <= |children|
      invariant EntryFold(State(constants, ["$["]), children[..j]) == Ok(State(bound, lines))
    {
      var entry := children[j];
      ghost var before := State(bound, lines);
      PrefixOfPrefix(children, j);
      if entry.tag == "entry" {
        match Binding(entry)
        case Err(err) =>
          EntryFoldStopsAtError(State(constants, ["$["]), children[..j + 1], children[j + 1..]);
          SliceJoin(children, j + 1);
          return Err(err);
        case Ok(p) =>
          bound := bound[p.0 := NumberValue(p.1)];
          lines := lines + [EntryLine(p.0, p.1)];
      }
      assert EntryStep(entry, before) == Ok(State(bound, lines));
      j := j + 1;
    }
    PrefixAll(children);
    lines := lines + ["]"];
    r := Ok(State(bound, lines));
  }

  /** The outer loop over tree.iter(). */
  method Transcode(root: Element) returns (r: Result<string>)
    ensures r == Convert(root)
  {
    var elems := Flatten(root);
    var output: seq<string> := [];
    var constants: map<string, int> := map[];
    var i := 0;
    while i < |elems|
      invariant 0 <= i <= |elems|
      invariant Run(Initial, elems[..i]) == Ok(State(constants, output))
    {
      var elem := elems[i];
      ghost var before := State(constants, output);
      PrefixOfPrefix(elems, i);
      if elem.tag == "comment" {
        if elem.text == None {
          AbortAt(elems, i);
          return Err(MissingText);
        }
        output := output + [CommentBlock(Strip(elem.text.value, IsSpace))];
      } else if elem.tag == "const" {
        match Binding(elem)
        case Err(err) =>
          AbortAt(elems, i);
          return Err(err);
        case Ok(p) =>
          constants := constants[p.0 := NumberValue(p.1)];
          output := output + [DefLine(p.0, p.1)];
      } else if elem.tag == "dictionary" {
        var block := DictionaryBlock(elem.children, constants);
        match block
        case Err(err) =>
          AbortAt(elems, i);
          return Err(err);
        case Ok(d) =>
          constants := d.constants;
          output := output + d.output;
      } else if elem.tag == "expr" {
        if "value" !in elem.attrs {
          AbortAt(elems, i);
          return Err(MissingAttribute("value"));
        }
        var expr := elem.attrs["value"];
        match Evaluate(expr, constants)
        case Err(err) =>
          AbortAt(elems, i);
          return Err(err);
        case Ok(v) =>
          output := output + [ExprLine(expr, Render(v))];
      }
      assert Step(elem, before) == Ok(State(constants, output));
      i := i + 1;
    }
    PrefixAll(elems);
    r := Ok(Join(output, "\n"));
  }

  // ---------------------------------------------------------------------
  // Sequence facts the loops use

  lemma PrefixAll<T>(s: seq<T>)
    ensures s[..|s|] == s
  {
  }

  lemma PrefixOfPrefix<T>(s: seq<T>, i: nat)
    requires i < |s|
    ensures s[..i + 1][..i] == s[..i]
  {
  }

  lemma PrefixOfSnoc<T>(s: seq<T>, x: T)
    ensures (s + [x])[..|s|] == s
  {
  }

  lemma SliceJoin<T>(s: seq<T>, k: nat)
    requires k <= |s|
    ensures s[..k] + s[k..] == s
  {
  }

  /** A failing child ends the dictionary: nothing after it is looked at. */
  lemma {:induction false} EntryFoldStopsAtError(acc: State, a: seq<Element>, b: seq<Element>)
    requires EntryFold(acc, a).Err?
    ensures EntryFold(acc, a + b) == EntryFold(acc, a)
    decreases |b|
  {
    if b == [] {
      assert a + b == a;
    } else {
      DropLastOfAppend(a, b);
      EntryFoldStopsAtError(acc, a, b[..|b| - 1]);
    }
  }

  /** An error is final: whatever follows it is not run. */
  lemma {:induction false} RunStopsAtError(st: State, a: seq<Element>, b: seq<Element>)
    requires Run(st, a).Err?
    ensures Run(st, a + b) == Run(st, a)
    decreases |b|
  {
    if b == [] {
      assert a + b == a;
    } else {
      DropLastOfAppend(a, b);
      RunStopsAtError(st, a, b[..|b| - 1]);
    }
  }

  /** An element that fails aborts the whole conversion with its error. */
  lemma AbortAt(es: seq<Element>, i: nat)
    requires i < |es| && Run(Initial, es[..i]).Ok?
    requires Step(es[i], Run(Initial, es[..i]).value).Err?
    ensures Run(Initial, es) == Step(es[i], Run(Initial, es[..i]).value)
  {
    PrefixOfPrefix(es, i);
    var head := es[..i + 1];
    assert Run(Initial, head) == Step(es[i], Run(Initial, es[..i]).value);
    RunStopsAtError(Initial, head, es[i + 1..]);
    SliceJoin(es, i + 1);
  }
}
