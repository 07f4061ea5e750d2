/** What the conversion promises, stated over the reference definition in
    module Transcoder (and so, through the ensures of Transcode and
    DictionaryBlock, over the loops themselves). */
module TranscoderProperties {
  import opened Outcomes
  import opened Lexical
  import opened Evaluator
  import opened Documents
  import opened Transcoder

  // ---------------------------------------------------------------------
  // A second description of a dictionary: pick the `entry` children, check
  // each, then print and bind the checked pairs.

  /** The direct children tagged `entry`, in document order. */
  function Entries(cs: seq<Element>): (es: seq<Element>)
    ensures |es| <= |cs|
    ensures forall i :: 0 <= i < |es| ==> es[i].tag == "entry" && es[i] in cs
    ensures forall x :: x in cs && x.tag == "entry" ==> x in es
    ensures |cs| == 1 ==> es == (if cs[0].tag == "entry" then cs else [])
  {
    if cs == [] then []
    else
      var init, last := cs[..|cs| - 1], cs[|cs| - 1];
      assert forall x :: x in cs ==> x in init || x == last;
      Entries(init) + (if last.tag == "entry" then [last] else [])
  }

  /** Selecting the entries of a concatenation selects those of each part,
      in order: no entry is dropped, merged or moved. */
  lemma {:induction false} EntriesAppend(a: seq<Element>, b: seq<Element>)
    ensures Entries(a + b) == Entries(a) + Entries(b)
    decreases |b|
  {
    if b == [] {
      assert a + b == a;
    } else {
      var ab := a + b;
      DropLastOfAppend(a, b);
      EntriesAppend(a, b[..|b| - 1]);
      assert ab[|ab| - 1] == b[|b| - 1];
    }
  }

  /** Every value is one int() can read. */
  predicate ValidPairs(ps: seq<(string, string)>)
  {
    forall i :: 0 <= i < |ps| ==> NumberMatch(ps[i].1)
  }

  /** The checked (name, value) pairs of a sequence of elements, or the
      error of the first element that fails its checks. */
  function Bindings(es: seq<Element>): (r: Result<seq<(string, string)>>)
    ensures r.Ok? <==> forall i :: 0 <= i < |es| ==> Binding(es[i]).Ok?
    ensures r.Ok? ==> |r.value| == |es| && ValidPairs(r.value) &&
                      forall i :: 0 <= i < |es| ==> r.value[i] == Binding(es[i]).value
  {
    if es == [] then Ok([])
    else
      var init := es[..|es| - 1];
      assert forall i :: 0 <= i < |init| ==> init[i] == es[i];
      match Bindings(init)
      case Err(err) => Err(err)
      case Ok(ps) =>
        match Binding(es[|es| - 1])
        case Err(err) => Err(err)
        case Ok(p) => Ok(ps + [p])
  }

  /** The error is that of the first entry that fails. */
  lemma {:induction false} BindingsFirstError(es: seq<Element>)
    requires Bindings(es).Err?
    ensures exists i :: 0 <= i < |es| && Binding(es[i]) == Err(Bindings(es).error) &&
                        forall j :: 0 <= j < i ==> Binding(es[j]).Ok?
  {
    var init := es[..|es| - 1];
    assert forall i :: 0 <= i < |init| ==> init[i] == es[i];
    if Bindings(init).Err? {
      BindingsFirstError(init);
      var i :| 0 <= i < |init| && Binding(init[i]) == Err(Bindings(init).error) &&
               forall j :: 0 <= j < i ==> Binding(init[j]).Ok?;
      assert Binding(es[i]) == Err(Bindings(es).error);
    } else {
      var i := |es| - 1;
      assert Binding(es[i]) == Err(Bindings(es).error);
    }
  }

  /** constants[n] = int(v) for each pair in turn. */
  function BindAll(constants: map<string, int>, ps: seq<(string, string)>): map<string, int>
    requires ValidPairs(ps)
  {
    if ps == [] then constants
    else
      var last := ps[|ps| - 1];
      BindAll(constants, ps[..|ps| - 1])[last.0 := NumberValue(last.1)]
  }

  function EntryLines(ps: seq<(string, string)>): seq<string>
  {
    seq(|ps|, i requires 0 <= i < |ps| => EntryLine(ps[i].0, ps[i].1))
  }

  lemma ValidPairsDropLast(ps: seq<(string, string)>)
    requires ps != [] && ValidPairs(ps)
    ensures ValidPairs(ps[..|ps| - 1])
  {
    var init := ps[..|ps| - 1];
    forall i | 0 <= i < |init| ensures NumberMatch(init[i].1) {
      assert init[i] == ps[i];
    }
  }

  /** Binding pairs in turn binds exactly the names of the pairs, and
      leaves every name that no pair mentions as it was. */
  lemma {:induction false} BindAllKeys(constants: map<string, int>, ps: seq<(string, string)>, n: string)
    requires ValidPairs(ps)
    ensures n in BindAll(constants, ps) <==> n in constants || exists i :: 0 <= i < |ps| && ps[i].0 == n
    ensures (forall i :: 0 <= i < |ps| ==> ps[i].0 != n) && n in constants ==>
              BindAll(constants, ps)[n] == constants[n]
  {
    if ps != [] {
      var init := ps[..|ps| - 1];
      ValidPairsDropLast(ps);
      BindAllKeys(constants, init, n);
      assert forall i :: 0 <= i < |init| ==> init[i] == ps[i];
    }
  }

  /** A later binding overwrites an earlier one: a name ends up with the
      value of the last pair that names it. */
  lemma {:induction false} BindAllLastWins(constants: map<string, int>, ps: seq<(string, string)>, n: string, i: nat)
    requires ValidPairs(ps)
    requires i < |ps| && ps[i].0 == n && forall k :: i < k < |ps| ==> ps[k].0 != n
    ensures n in BindAll(constants, ps) && BindAll(constants, ps)[n] == NumberValue(ps[i].1)
  {
    var init := ps[..|ps| - 1];
    ValidPairsDropLast(ps);
    if i < |ps| - 1 {
      assert init[i] == ps[i];
      assert forall k :: i < k < |init| ==> init[k] == ps[k];
      BindAllLastWins(constants, init, n, i);
    }
  }

  /** The second description, for a list of entries: check them all, then
      print one line per pair after the lines in `acc` and bind the pairs
      over the constants in `acc`. */
  function Described(acc: State, es: seq<Element>): Result<State>
  {
    match Bindings(es)
    case Err(err) => Err(err)
    case Ok(ps) => Ok(State(BindAll(acc.constants, ps), acc.output + EntryLines(ps)))
  }

  lemma SnocPair(constants: map<string, int>, ps: seq<(string, string)>, p: (string, string))
    requires ValidPairs(ps) && NumberMatch(p.1)
    ensures ValidPairs(ps + [p])
    ensures BindAll(constants, ps + [p]) == BindAll(constants, ps)[p.0 := NumberValue(p.1)]
    ensures EntryLines(ps + [p]) == EntryLines(ps) + [EntryLine(p.0, p.1)]
  {
    PrefixOfSnoc(ps, p);
  }

  /** One more entry in the description is one more step of the loop. */
  lemma DescribedSnoc(acc: State, es: seq<Element>, x: Element)
    requires x.tag == "entry"
    ensures Described(acc, es + [x]) == match Described(acc, es) case Err(err) => Err(err) case Ok(s) => EntryStep(x, s)
  {
    PrefixOfSnoc(es, x);
    assert Bindings(es + [x]) == match Bindings(es) case Err(err) => Err(err)
                                 case Ok(ps) => (match Binding(x) case Err(err) => Err(err) case Ok(p) => Ok(ps + [p]));
    if Bindings(es).Ok? && Binding(x).Ok? {
      var ps, p := Bindings(es).value, Binding(x).value;
      SnocPair(acc.constants, ps, p);
      assert acc.output + EntryLines(ps + [p]) == acc.output + EntryLines(ps) + [EntryLine(p.0, p.1)];
    }
  }

  /** The loop over a dictionary's children is the second description:
      it fails with the first failing entry's error, and otherwise prints
      one line per checked pair and binds the pairs in order. */
  lemma {:induction false} EntryFoldMatchesEntries(acc: State, cs: seq<Element>)
    ensures EntryFold(acc, cs) == Described(acc, Entries(cs))
  {
    if cs == [] {
      assert acc.output + EntryLines([]) == acc.output;
    } else {
      var init, x := cs[..|cs| - 1], cs[|cs| - 1];
      EntryFoldMatchesEntries(acc, init);
      var es := Entries(init);
      if x.tag != "entry" {
        assert Entries(cs) == es + [];
        assert es + [] == es;
      } else {
        assert Entries(cs) == es + [x];
        DescribedSnoc(acc, es, x);
      }
    }
  }

  // ---------------------------------------------------------------------
  // One element at a time

  /** The three kinds of line, spelled out. */
  lemma LineFormats(t: string, n: string, v: string, x: string)
    ensures CommentBlock(t) == "{{!--\n" + t + "\n--}}"
    ensures EntryLine(n, v) == "  " + n + " : " + v + ","
    ensures ExprLine(v, x) == "{{!-- " + v + " : " + x + " --}}"
  {
    assert CommentStart + "\n" == "{{!--\n";
    assert "\n" + CommentEnd == "\n--}}";
    assert CommentStart + " " == "{{!-- ";
    assert " " + CommentEnd == " --}}";
  }

  /** A `comment` emits one block: the start marker, the text with outer
      whitespace trimmed, the end marker, on lines of their own. An element
      without text is an error. Constants are untouched. */
  lemma CommentEmitsBlock(e: Element, st: State)
    requires e.tag == "comment"
    ensures e.text.None? ==> Step(e, st) == Err(MissingText)
    ensures e.text.Some? ==>
              Step(e, st) == Ok(State(st.constants, st.output + [CommentBlock(Strip(e.text.value, IsSpace))]))
  {
  }

  /** A `const` succeeds exactly when its name is an identifier and its
      value a digit string; it then binds name to int(value), overwriting
      any earlier binding and leaving the other names alone, and appends
      exactly `(def name value)` with the value's own text. Otherwise the
      name is reported before the value. */
  lemma ConstBindsAndEmits(e: Element, st: State)
    requires e.tag == "const"
    ensures Step(e, st).Ok? <==>
              "name" in e.attrs && NameMatch(e.attrs["name"]) && "value" in e.attrs && NumberMatch(e.attrs["value"])
    ensures Step(e, st).Ok? ==>
              var n, v, s := e.attrs["name"], e.attrs["value"], Step(e, st).value;
              && s.output == st.output + ["(def " + n + " " + v + ")"]
              && s.constants.Keys == st.constants.Keys + {n}
              && s.constants[n] == NumberValue(v)
              && forall m :: m in st.constants && m != n ==> s.constants[m] == st.constants[m]
    ensures "name" in e.attrs && !NameMatch(e.attrs["name"]) ==> Step(e, st) == Err(InvalidName(e.attrs["name"]))
    ensures "name" in e.attrs && NameMatch(e.attrs["name"]) && "value" in e.attrs && !NumberMatch(e.attrs["value"]) ==>
              Step(e, st) == Err(InvalidValue(e.attrs["value"]))
  {
  }

  /** A dictionary block is `$[`, one line per checked pair, `]`, with the
      pairs bound in order; or the first failing entry's error. */
  lemma DictionaryStepMatchesEntries(children: seq<Element>, constants: map<string, int>)
    ensures Bindings(Entries(children)).Err? ==>
              DictionaryStep(children, constants) == Err(Bindings(Entries(children)).error)
    ensures Bindings(Entries(children)).Ok? ==>
              var ps := Bindings(Entries(children)).value;
              DictionaryStep(children, constants) == Ok(State(BindAll(constants, ps), ["$["] + EntryLines(ps) + ["]"]))
  {
    EntryFoldMatchesEntries(State(constants, ["$["]), children);
  }

  /** A `dictionary` element's step is its block appended to the output,
      or the block's error. */
  lemma DictionaryStepIsBlock(e: Element, st: State)
    requires e.tag == "dictionary"
    ensures var d := DictionaryStep(e.children, st.constants);
            && (d.Err? ==> Step(e, st) == Err(d.error))
            && (d.Ok? ==> Step(e, st) == Ok(State(d.value.constants, st.output + d.value.output)))
  {
  }

  /** A `dictionary` succeeds exactly when every `entry` child passes the
      checks of a `const`; children with other tags are not checked. A
      failure is the error of the first failing entry. */
  lemma DictionaryAcceptsExactly(e: Element, st: State)
    requires e.tag == "dictionary"
    ensures var es := Entries(e.children);
            Step(e, st).Ok? <==> forall i :: 0 <= i < |es| ==> Binding(es[i]).Ok?
    ensures Step(e, st).Err? ==> Step(e, st) == Err(Bindings(Entries(e.children)).error)
  {
    DictionaryStepMatchesEntries(e.children, st.constants);
    DictionaryStepIsBlock(e, st);
  }

  /** A `dictionary` that succeeds appends `$[`, the lines of its `entry`
      children in document order (one each, see LinesOfEntries) and `]`,
      and binds the entries in order over the existing constants, so a name
      bound twice keeps its later value. */
  lemma DictionaryEmitsEntries(e: Element, st: State)
    requires e.tag == "dictionary" && Step(e, st).Ok?
    ensures Bindings(Entries(e.children)).Ok?
    ensures var ps := Bindings(Entries(e.children)).value;
            && Step(e, st).value.output == st.output + (["$["] + EntryLines(ps) + ["]"])
            && Step(e, st).value.constants == BindAll(st.constants, ps)
  {
    DictionaryStepMatchesEntries(e.children, st.constants);
    DictionaryStepIsBlock(e, st);
  }

  /** When every entry passes, its line holds its own name and value. */
  lemma LinesOfEntries(es: seq<Element>)
    requires Bindings(es).Ok?
    ensures var lines := EntryLines(Bindings(es).value);
            && |lines| == |es|
            && forall i :: 0 <= i < |es| ==>
                 && Binding(es[i]).Ok?
                 && lines[i] == EntryLine(es[i].attrs["name"], es[i].attrs["value"])
  {
    var ps := Bindings(es).value;
    forall i | 0 <= i < |es|
      ensures "name" in es[i].attrs && "value" in es[i].attrs && ps[i] == (es[i].attrs["name"], es[i].attrs["value"])
    {
      assert ps[i] == Binding(es[i]).value;
    }
  }

  /** An `expr` evaluates its `value` attribute against the constants bound
      so far and appends one line with the expression and its result; it
      binds nothing. An evaluation error is the element's error. */
  lemma ExprEmitsResult(e: Element, st: State)
    requires e.tag == "expr"
    ensures "value" !in e.attrs ==> Step(e, st) == Err(MissingAttribute("value"))
    ensures "value" in e.attrs && Evaluate(e.attrs["value"], st.constants).Err? ==>
              Step(e, st) == Err(Evaluate(e.attrs["value"], st.constants).error)
    ensures "value" in e.attrs && Evaluate(e.attrs["value"], st.constants).Ok? ==>
              var v := e.attrs["value"];
              Step(e, st) == Ok(State(st.constants, st.output + [ExprLine(v, Render(Evaluate(v, st.constants).value))]))
  {
  }

  /** Every other tag (the document root, `entry` reached by the walk, an
      unknown tag) adds nothing and binds nothing. */
  lemma OtherTagsAreInert(e: Element, st: State)
    requires e.tag !in {"comment", "const", "dictionary", "expr"}
    ensures Step(e, st) == Ok(st)
  {
  }

  // ---------------------------------------------------------------------
  // The whole walk

  /** The output list is append-only: a step keeps the lines it was given
      as a prefix. */
  lemma StepExtendsOutput(e: Element, st: State)
    requires Step(e, st).Ok?
    ensures |st.output| <= |Step(e, st).value.output|
    ensures Step(e, st).value.output[..|st.output|] == st.output
  {
  }

  lemma {:induction false} RunExtendsOutput(st: State, es: seq<Element>)
    requires Run(st, es).Ok?
    ensures |st.output| <= |Run(st, es).value.output|
    ensures Run(st, es).value.output[..|st.output|] == st.output
  {
    if es != [] {
      var init := es[..|es| - 1];
      RunExtendsOutput(st, init);
      var s := Run(st, init).value;
      StepExtendsOutput(es[|es| - 1], s);
      var t := Run(st, es).value;
      assert t.output[..|s.output|] == s.output;
      assert t.output[..|st.output|] == s.output[..|st.output|];
    }
  }

  /** Running a concatenation runs the second part from the state the first
      part leaves, and an error in the first part is the whole result. */
  lemma {:induction false} RunAppend(st: State, a: seq<Element>, b: seq<Element>)
    ensures Run(st, a + b) == match Run(st, a) case Err(err) => Err(err) case Ok(s) => Run(s, b)
    decreases |b|
  {
    if b == [] {
      assert a + b == a;
    } else {
      DropLastOfAppend(a, b);
      RunAppend(st, a, b[..|b| - 1]);
    }
  }

  /** An `expr` sees exactly the bindings made by the elements before it in
      document order, and its line lands in the output right after theirs,
      whatever follows it. */
  lemma ExprSeesEarlierBindings(es: seq<Element>, i: nat)
    requires i < |es| && Run(Initial, es).Ok?
    requires es[i].tag == "expr" && "value" in es[i].attrs
    ensures Run(Initial, es[..i]).Ok?
    ensures var s, v := Run(Initial, es[..i]).value, es[i].attrs["value"];
            && Evaluate(v, s.constants).Ok?
            && |s.output| < |Run(Initial, es).value.output|
            && Run(Initial, es).value.output[|s.output|] == ExprLine(v, Render(Evaluate(v, s.constants).value))
  {
    RunThrough(Initial, es, i + 1);
    PrefixOfPrefix(es, i);
    var r := Run(Initial, es[..i]);
    assert r.Err? ==> Run(Initial, es[..i + 1]).Err?;
    var s, v := r.value, es[i].attrs["value"];
    ExprEmitsResult(es[i], s);
    var p := Run(Initial, es[..i + 1]).value.output;
    assert p == s.output + [ExprLine(v, Render(Evaluate(v, s.constants).value))];
    var w := Run(Initial, es).value.output;
    assert w[|s.output|] == w[..|p|][|s.output|];
  }

  /** A run that succeeds got through each of its prefixes, and their lines
      begin its output. */
  lemma RunThrough(st: State, es: seq<Element>, j: nat)
    requires j <= |es| && Run(st, es).Ok?
    ensures Run(st, es[..j]).Ok?
    ensures var p, w := Run(st, es[..j]).value.output, Run(st, es).value.output;
            |p| <= |w| && w[..|p|] == p
  {
    SliceJoin(es, j);
    RunAppend(st, es[..j], es[j..]);
    if Run(st, es[..j]).Ok? {
      RunExtendsOutput(Run(st, es[..j]).value, es[j..]);
    }
  }

  /** A constant whose name was accepted with its final newline is bound
      under that name, newline included; no expression token contains
      whitespace, so no expression can refer to it. */
  lemma NewlineNamesAreUnreachable(expr: string, n: string)
    requires n != [] && n[|n| - 1] == '\n'
    ensures n !in Tokens(expr)
  {
    SplitTokens(Strip(expr, IsBar));
  }

  /** A document that is a single valid `const` converts to exactly one
      line, `(def n v)`; a bad name or value fails the conversion. */
  lemma SingleConstDocument(n: string, v: string, text: Option<string>)
    ensures var root := Element("const", map["name" := n, "value" := v], text, []);
            && (NameMatch(n) && NumberMatch(v) ==> Convert(root) == Ok("(def " + n + " " + v + ")"))
            && (!NameMatch(n) ==> Convert(root) == Err(InvalidName(n)))
            && (NameMatch(n) && !NumberMatch(v) ==> Convert(root) == Err(InvalidValue(v)))
  {
    var root := Element("const", map["name" := n, "value" := v], text, []);
    FlatDocument(root);
    assert Flatten(root) == [root];
    assert [root][..0] == [];
    assert Run(Initial, [root]) == Step(root, Initial);
    ConstBindsAndEmits(root, Initial);
  }

  // ---------------------------------------------------------------------
  // A worked conversion: a `const` binding a to 5, then the expression
  // `|+ a 10|`, both children of one root.

  const ExampleConst := Element("const", map["name" := "a", "value" := "5"], None, [])
  const ExampleExpr := Element("expr", map["value" := "|+ a 10|"], None, [])
  const ExampleRoot := Element("config", map[], None, [ExampleConst, ExampleExpr])

  /** The text of the example's two lines. */
  lemma ExampleLines()
    ensures DefLine("a", "5") == "(def a 5)"
    ensures ExprLine("|+ a 10|", "15") == "{{!-- |+ a 10| : 15 --}}"
  {
  }

  /** str(15) is "15". */
  lemma ExampleRender()
    ensures Render(Num(15)) == "15"
  {
    assert NatToString(15) == NatToString(1) + [DigitChar(5)];
  }

  /** The `const` binds a to 5 and prints its definition. */
  lemma ExampleConstStep()
    ensures Step(ExampleConst, Initial) == Ok(State(map["a" := 5], ["(def a 5)"]))
  {
    assert Chomp("a") == "a" && Chomp("5") == "5";
    assert IsName("a") && IsNumber("5");
    assert Binding(ExampleConst) == Ok(("a", "5"));
    assert NumberValue("5") == 5;
    ExampleLines();
    assert Initial.constants["a" := 5] == map["a" := 5];
    assert Initial.output + [DefLine("a", "5")] == ["(def a 5)"];
  }

  /** The expression sees a = 5 and prints 15. */
  lemma ExampleExprStep()
    ensures Step(ExampleExpr, State(map["a" := 5], ["(def a 5)"]))
            == Ok(State(map["a" := 5], ["(def a 5)", "{{!-- |+ a 10| : 15 --}}"]))
  {
    var st := State(map["a" := 5], ["(def a 5)"]);
    EvaluateAddition();
    ExprEmitsResult(ExampleExpr, st);
    assert ExampleExpr.attrs["value"] == "|+ a 10|";
    ExampleRender();
    ExampleLines();
    assert st.output + ["{{!-- |+ a 10| : 15 --}}"] == ["(def a 5)", "{{!-- |+ a 10| : 15 --}}"];
  }

  /** The walk goes through the root, the `const` and the `expr`, one
      step at a time. */
  lemma ExampleWalk()
    ensures Run(Initial, [ExampleRoot]) == Ok(Initial)
    ensures Run(Initial, [ExampleRoot, ExampleConst]) == Ok(State(map["a" := 5], ["(def a 5)"]))
    ensures Run(Initial, [ExampleRoot, ExampleConst, ExampleExpr])
            == Ok(State(map["a" := 5], ["(def a 5)", "{{!-- |+ a 10| : 15 --}}"]))
  {
    var es := [ExampleRoot, ExampleConst, ExampleExpr];
    assert [ExampleRoot][..0] == [];
    OtherTagsAreInert(ExampleRoot, Initial);
    assert es[..2][..1] == [ExampleRoot];
    ExampleConstStep();
    assert es[..2] == es[..|es| - 1];
    ExampleExprStep();
  }

  /** The two lines joined by a newline. */
  lemma ExampleJoin()
    ensures Join(["(def a 5)", "{{!-- |+ a 10| : 15 --}}"], "\n") == "(def a 5)\n{{!-- |+ a 10| : 15 --}}"
  {
    var lines := ["(def a 5)", "{{!-- |+ a 10| : 15 --}}"];
    assert lines[..1] == ["(def a 5)"];
    assert Join(lines, "\n") == "(def a 5)" + "\n" + "{{!-- |+ a 10| : 15 --}}";
  }

  /** The whole document converts to the definition line and the
      expression line holding 15, joined by a newline. */
  lemma ConstThenExprDocument()
    ensures Convert(ExampleRoot) == Ok("(def a 5)\n{{!-- |+ a 10| : 15 --}}")
  {
    FlatDocument(ExampleRoot);
    assert Flatten(ExampleRoot) == [ExampleRoot, ExampleConst, ExampleExpr];
    ExampleWalk();
    var done := State(map["a" := 5], ["(def a 5)", "{{!-- |+ a 10| : 15 --}}"]);
    assert Run(Initial, Flatten(ExampleRoot)) == Ok(done);
    ExampleJoin();
  }
}
