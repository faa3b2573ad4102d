/**
 The handlers that the parser drives: the one that formats at once, the one that compiles, and
 the loop that runs compiled parts. Each is proved against the meaning of the event stream.
 */
module FormatHandlers {
  import opened Sequences
  import opened Options
  import opened FormatString
  import opened FormatCompile
  import opened PartCounter
  import FormatMeaning

  /** The automatic numbering; -1 after an explicit index. */
  class ParseContext {
    var next: int

    constructor ()
      ensures next == 0
    {
      next := 0;
    }

    method NextArgId() returns (id: Option<nat>)
      modifies this
      ensures old(next) >= 0 ==> id == Some(old(next)) && next == old(next) + 1
      ensures old(next) < 0 ==> id == None && next == old(next)
    {
      if next < 0 { return None; }
      id := Some(next);
      next := next + 1;
    }

    method CheckArgId() returns (ok: bool)
      modifies this
      ensures ok <==> old(next) <= 0
      ensures next == if ok then -1 else old(next)
    {
      if next > 0 { return false; }
      next := -1;
      ok := true;
    }

    method Refer(id: ArgId) returns (ref: Option<Ref>)
      modifies this
      ensures ref.Some? ==> Resolve(id, old(next)) == Some((ref.value, next))
      ensures ref.None? ==> Resolve(id, old(next)) == None
    {
      match id
      case Auto =>
        var i := NextArgId();
        ref := if i.Some? then Some(ByIndex(i.value)) else None;
      case Index(i) =>
        var ok := CheckArgId();
        ref := if ok then Some(ByIndex(i)) else None;
      case Name(name) =>
        ref := Some(ByName(name));
    }
  }

  /** A width or precision of a direct run, fetched as soon as it is parsed. */
  method Fetch(context: ParseContext, args: Args, count: Count, absent: int) returns (n: Option<int>)
    modifies context
    ensures n.Some? ==> CountValue(args, count, absent, old(context.next)) == Some((n.value, context.next))
    ensures n.None? ==> CountValue(args, count, absent, old(context.next)) == None
  {
    match count
    case Absent =>
      n := Some(absent);
    case Static(k) =>
      n := Some(k);
    case Dynamic(id) =>
      var ref := context.Refer(id);
      if ref.None? { return None; }
      var value := DynamicValue(Lookup(args, ref.value));
      n := if value.Some? then Some(value.value) else None;
  }

  predicate FlagsAllowed(spec: Spec, kind: Kind) {
    (spec.zero || spec.hash || spec.align == Some(Numeric) ==> IsArithmetic(kind)) && (spec.sign.Some? ==> IsSigned(kind))
  }

  /** Fill, alignment, sign and flags; each is checked when it is met, and then set. */
  method CheckFlags(kind: Kind, spec: Spec) returns (r: Option<Specs>)
    ensures r.Some? <==> FillFits(spec) && FlagsAllowed(spec, kind)
    ensures r.Some? ==> r.value == SpecsOf(spec, DEFAULT.width, DEFAULT.precision).(kind := DEFAULT.kind)
  {
    var specs := DEFAULT;
    if spec.fill.Some? {
      if |spec.fill.value| > MAX_FILL { return None; }
      specs := specs.(fill := spec.fill.value);
    }
    if spec.align.Some? {
      if spec.align.value == Numeric && !IsArithmetic(kind) { return None; }
      specs := specs.(align := spec.align);
    }
    if spec.sign.Some? {
      if !IsSigned(kind) { return None; }
      specs := specs.(sign := spec.sign);
    }
    r := CheckNumeric(kind, spec, specs);
  }

  /** The flags that only numbers may have. */
  method CheckNumeric(kind: Kind, spec: Spec, before: Specs) returns (r: Option<Specs>)
    ensures r.Some? <==> (spec.hash || spec.zero ==> IsArithmetic(kind))
    ensures r.Some? ==>
              r.value == before.(alt := before.alt || spec.hash,
                                 align := if spec.zero then Some(Numeric) else before.align,
                                 fill := if spec.zero && before.fill != "" then "0" + before.fill[1..] else before.fill)
  {
    var specs := before;
    if spec.hash {
      if !IsArithmetic(kind) { return None; }
      specs := specs.(alt := true);
    }
    if spec.zero {
      if !IsArithmetic(kind) { return None; }
      specs := specs.(align := Some(Numeric), fill := if specs.fill == "" then "" else "0" + specs.fill[1..]);
    }
    r := Some(specs);
  }

  /** The specifications of a direct run, checked against the type of the argument. */
  method CheckSpecs(context: ParseContext, args: Args, kind: Kind, spec: Spec) returns (r: Option<Specs>)
    modifies context
    ensures r.Some? ==> SpecsFor(args, kind, spec, old(context.next)) == Some((r.value, context.next))
    ensures r.None? ==> SpecsFor(args, kind, spec, old(context.next)) == None
  {
    var flags := CheckFlags(kind, spec);
    if flags.None? { return None; }
    var width := Fetch(context, args, spec.width, flags.value.width);
    if width.None? { return None; }
    var precision := Fetch(context, args, spec.precision, flags.value.precision);
    if precision.None? { return None; }
    if spec.precision != Absent && (IsIntegral(kind) || kind == PointerKind) { return None; }
    var specs := flags.value.(width := width.value, precision := precision.value);
    if spec.kind.Some? {
      specs := specs.(kind := spec.kind.value);
    }
    r := Some(specs);
  }

  /** The handler that formats while the string is parsed. */
  class FormatHandler {
    const context: ParseContext
    const args: Args
    const render: Render
    var out: string

    constructor (args: Args, render: Render)
      ensures fresh(context) && context.next == 0 && out == ""
      ensures this.args == args && this.render == render
    {
      context := new ParseContext();
      this.args, this.render, out := args, render, "";
    }

    method OnText(text: string)
      modifies this
      ensures out == old(out) + text
    {
      out := out + text;
    }

    method OnField(field: Field) returns (ok: bool)
      modifies this, context
      ensures ok ==> exists text :: FieldText(args, render, field, old(context.next)) == Some((text, context.next)) &&
                                    out == old(out) + text
      ensures !ok ==> FieldText(args, render, field, old(context.next)) == None
    {
      ghost var start := context.next;
      var ref := context.Refer(field.id);
      if ref.None? { return false; }
      var arg := Lookup(args, ref.value);
      if arg.None? { return false; }
      var text;
      if field.spec.None? {
        text := render(arg.value, None);
      } else {
        var specs := CheckSpecs(context, args, arg.value.kind, field.spec.value);
        if specs.None? { return false; }
        text := render(arg.value, specs);
      }
      if text.None? { return false; }
      assert FieldText(args, render, field, start) == Some((text.value, context.next));
      out := out + text.value;
      ok := true;
    }
  }

  /** Empty texts change neither what is formatted nor what is compiled. */
  lemma {:induction false} FormattedNonempty(args: Args, render: Render, items: seq<Item>, next: int)
    ensures Formatted(args, render, Nonempty(items), next) == Formatted(args, render, items, next)
  {
    if items != [] {
      var rest := Nonempty(items[1..]);
      if items[0] == Text("") {
        FormattedNonempty(args, render, items[1..], next);
        assert [] + rest == rest;
        var tail := Formatted(args, render, items[1..], next);
        assert tail.Some? ==> "" + tail.value == tail.value;
      } else {
        var head := ItemText(args, render, items[0], next);
        if head.Some? { FormattedNonempty(args, render, items[1..], head.value.1); }
        assert ([items[0]] + rest)[1..] == rest;
      }
    }
  }

  lemma {:induction false} CompiledNonempty(items: seq<Item>, next: int)
    ensures Compiled(Nonempty(items), next) == Compiled(items, next)
  {
    if items != [] {
      var rest := Nonempty(items[1..]);
      if items[0] == Text("") {
        CompiledNonempty(items[1..], next);
        assert [] + rest == rest;
        var tail := Compiled(items[1..], next);
        assert tail.Some? ==> [] + tail.value == tail.value;
      } else {
        var head := CompileItem(items[0], next);
        if head.Some? { CompiledNonempty(items[1..], head.value.1); }
        assert ([items[0]] + rest)[1..] == rest;
      }
    }
  }

  /** What has been formatted, and what the remaining events still add to it. */
  ghost predicate Printed(args: Args, render: Render, items: seq<Item>, out: string, next: int, all: Option<string>) {
    var rest := Formatted(args, render, items, next);
    all == if rest.None? then None else Some(out + rest.value)
  }

  lemma PrintedStep(args: Args, render: Render, items: seq<Item>, out: string, next: int, all: Option<string>)
    requires items != [] && Printed(args, render, items, out, next, all)
    ensures var item := ItemText(args, render, items[0], next);
            if item.None? then all == None
            else Printed(args, render, items[1..], out + item.value.0, item.value.1, all)
  {
    var item := ItemText(args, render, items[0], next);
    if item.Some? {
      var rest := Formatted(args, render, items[1..], item.value.1);
      assert rest.Some? ==> out + (item.value.0 + rest.value) == (out + item.value.0) + rest.value;
    }
  }

  /** Formats a string; None stands for the error that is thrown. */
  method VFormat(s: string, args: Args, render: Render) returns (r: Option<string>)
    ensures r == Formatted(args, render, Parse("", s), 0)
    ensures var items := Parse("", s);
            r == if FormatMeaning.IsMixed(items) then None
                 else FormatMeaning.Meaning(args.list, args.names, render, FormatMeaning.Explicit(items, 0), false)
  {
    FormatMeaning.FormattedMeaning(args, render, Parse("", s));
    var items := ParseFormatString(s);
    FormattedNonempty(args, render, items, 0);
    FormattedNonempty(args, render, Parse("", s), 0);
    var handler := new FormatHandler(args, render);
    ghost var all := Formatted(args, render, items, 0);
    assert all.Some? ==> "" + all.value == all.value;
    for i := 0 to |items|
      invariant Printed(args, render, items[i..], handler.out, handler.context.next, all)
    {
      PrintedStep(args, render, items[i..], handler.out, handler.context.next, all);
      assert items[i..][1..] == items[i + 1..];
      match items[i]
      case Text(text) =>
        handler.OnText(text);
      case Replacement(field) =>
        var ok := handler.OnField(field);
        if !ok { return None; }
      case Error =>
        return None;
    }
    assert handler.out + "" == handler.out;
    r := Some(handler.out);
  }

  // ----- compiling

  /** The handler that compiles; `part` is the part begun by the last argument id. */
  class Compiler {
    const context: ParseContext
    var part: Part
    var parts: seq<Part>

    constructor ()
      ensures fresh(context) && context.next == 0 && parts == []
    {
      context := new ParseContext();
      part := ArgPart(ByIndex(0));
      parts := [];
    }

    method OnText(text: string)
      modifies this
      ensures parts == old(parts) + if text == "" then [] else [TextPart(text)]
    {
      if text != "" {
        parts := parts + [TextPart(text)];
      }
    }

    method OnArgId(id: ArgId) returns (ok: bool)
      modifies this`part, context
      ensures ok ==> part.ArgPart? && Resolve(id, old(context.next)) == Some((part.arg, context.next))
      ensures !ok ==> Resolve(id, old(context.next)) == None
    {
      var ref := context.Refer(id);
      if ref.None? { return false; }
      part := ArgPart(ref.value);
      ok := true;
    }

    method OnCount(count: Count) returns (ref: Option<Ref>)
      modifies context
      ensures ref.Some? ==> CountRef(count, old(context.next)) == Some((ref.value, context.next))
      ensures ref.None? ==> CountRef(count, old(context.next)) == None
    {
      if !count.Dynamic? { return Some(NoRef); }
      ref := context.Refer(count.id);
    }

    method OnFormatSpecs(spec: Spec) returns (ok: bool)
      requires part.ArgPart?
      modifies this`parts, context
      ensures ok ==> exists p :: CompileSpecs(part.arg, spec, old(context.next)) == Some((p, context.next)) &&
                                 parts == old(parts) + [p]
      ensures !ok ==> CompileSpecs(part.arg, spec, old(context.next)) == None
    {
      ghost var start := context.next;
      var width := OnCount(spec.width);
      if width.None? { return false; }
      var precision := OnCount(spec.precision);
      if precision.None? || !FillFits(spec) { return false; }
      var specs := SpecsOf(spec, StaticOr(spec.width, DEFAULT.width), StaticOr(spec.precision, DEFAULT.precision));
      var replacement := ReplacementPart(part.arg, specs, width.value, precision.value);
      assert CompileSpecs(part.arg, spec, start) == Some((replacement, context.next));
      parts := parts + [replacement];
      ok := true;
    }

    method OnField(field: Field) returns (ok: bool)
      modifies this, context
      ensures ok ==> exists p :: CompileField(field, old(context.next)) == Some((p, context.next)) &&
                                 parts == old(parts) + [p]
      ensures !ok ==> CompileField(field, old(context.next)) == None
    {
      ok := OnArgId(field.id);
      if !ok { return; }
      if field.spec.None? {
        parts := parts + [part];
      } else {
        ok := OnFormatSpecs(field.spec.value);
      }
    }
  }

  /** Dispatches one event. */
  method Emit(compiler: Compiler, item: Item) returns (ok: bool)
    modifies compiler, compiler.context
    ensures ok ==> exists more :: CompileItem(item, old(compiler.context.next)) == Some((more, compiler.context.next)) &&
                                  compiler.parts == old(compiler.parts) + more
    ensures !ok ==> CompileItem(item, old(compiler.context.next)) == None
  {
    match item
    case Text(text) =>
      compiler.OnText(text);
      ok := true;
    case Replacement(field) =>
      ok := compiler.OnField(field);
    case Error =>
      ok := false;
  }

  ghost predicate Emitted(items: seq<Item>, parts: seq<Part>, next: int, all: Option<seq<Part>>) {
    var rest := Compiled(items, next);
    all == if rest.None? then None else Some(parts + rest.value)
  }

  lemma EmittedStep(items: seq<Item>, parts: seq<Part>, next: int, all: Option<seq<Part>>)
    requires items != [] && Emitted(items, parts, next, all)
    ensures var item := CompileItem(items[0], next);
            if item.None? then all == None
            else Emitted(items[1..], parts + item.value.0, item.value.1, all)
  {
    var item := CompileItem(items[0], next);
    if item.Some? {
      var rest := Compiled(items[1..], item.value.1);
      if rest.Some? { Associates(parts, item.value.0, rest.value); }
    }
  }

  /** Compiles a string; None stands for the error that is thrown. */
  method CompileFormat(s: string) returns (r: Option<seq<Part>>)
    ensures r == Compiled(Parse("", s), 0)
  {
    var items := ParseFormatString(s);
    CompiledNonempty(items, 0);
    CompiledNonempty(Parse("", s), 0);
    var compiler := new Compiler();
    ghost var all := Compiled(items, 0);
    assert all.Some? ==> [] + all.value == all.value;
    for i := 0 to |items|
      invariant Emitted(items[i..], compiler.parts, compiler.context.next, all)
    {
      EmittedStep(items[i..], compiler.parts, compiler.context.next, all);
      assert items[i..][1..] == items[i + 1..];
      var ok := Emit(compiler, items[i]);
      if !ok { return None; }
    }
    assert compiler.parts + [] == compiler.parts;
    r := Some(compiler.parts);
  }

  /** Stores parts one after the other, and an empty text behind them if there is room; false if there is too little. */
  method Store(parts: seq<Part>, data: array<Part>) returns (ok: bool)
    modifies data
    ensures ok <==> |parts| <= data.Length
    ensures ok ==> data[..|parts|] == parts && (|parts| < data.Length ==> data[|parts|] == TextPart(""))
  {
    var counter := 0;
    while counter < |parts|
      invariant counter <= |parts| && counter <= data.Length && data[..counter] == parts[..counter]
    {
      if counter == data.Length { return false; }
      data[counter] := parts[counter];
      counter := counter + 1;
    }
    if counter < data.Length {
      data[counter] := TextPart("");
    }
    ok := true;
  }

  lemma StoredAll(parts: seq<Part>, now: seq<Part>)
    requires |parts| == |now| || (parts == [] && |now| == 1 && now[0] == TextPart(""))
    requires now[..|parts|] == parts
    ensures now == if parts == [] && |now| == 1 then [TextPart("")] else parts
  {
    if parts != [] { assert now[..|parts|] == now; }
  }

  /**
   Compiles into an array of as many elements as were counted. It holds the compiled parts, or
   one empty text if there are none; but a part too many, which is an error when it is found
   at compile time, is met if and only if a part before the last has a brace as its type.
   */
  method CompileToParts(s: string) returns (data: array<Part>, ok: bool)
    ensures fresh(data) && data.Length == if Counted(s) < 1 then 1 else Counted(s)
    ensures var parts := Compiled(Parse("", s), 0);
            (ok <==> parts.Some? && OnlyLastPart(parts.value)) &&
            (ok ==> data[..] == if parts.value == [] then [TextPart("")] else parts.value)
  {
    var n := CountParts(s);
    data := new Part[if n < 1 then 1 else n](_ => ArgPart(ByIndex(0)));
    var parts := CompileFormat(s);
    if parts.None? { return data, false; }
    CounterAgrees(s);
    ok := Store(parts.value, data);
    if ok {
      assert data[..][..|parts.value|] == data[..|parts.value|];
      StoredAll(parts.value, data[..]);
    }
  }

  // ----- running compiled parts

  /** The value of a dynamic width or precision replaces the static one. */
  method HandleDynamicSpec(args: Args, value: int, ref: Ref) returns (r: Option<int>)
    ensures r == ResolveSpec(args, value, ref)
  {
    if ref == NoRef { return Some(value); }
    var n := DynamicValue(Lookup(args, ref));
    r := if n.None? then None else Some(n.value);
  }

  method RunReplacement(args: Args, render: Render, part: Part) returns (r: Option<string>)
    requires part.ReplacementPart?
    ensures r == RunPart(args, render, part)
  {
    var arg := Lookup(args, part.arg);
    var kind := if arg.Some? then arg.value.kind else NoneKind;
    var specs := part.specs;
    var width := HandleDynamicSpec(args, specs.width, part.widthRef);
    if width.None? { return None; }
    specs := specs.(width := width.value);
    var precision := HandleDynamicSpec(args, specs.precision, part.precisionRef);
    if precision.None? { return None; }
    specs := specs.(precision := precision.value);
    if specs.align == Some(Numeric) && !IsArithmetic(kind) { return None; }
    if specs.sign.Some? && !IsSigned(kind) { return None; }
    if specs.alt && !IsArithmetic(kind) { return None; }
    if specs.precision >= 0 && (IsIntegral(kind) || kind == PointerKind) { return None; }
    r := Visit(render, arg, Some(specs));
  }

  ghost predicate Ran(args: Args, render: Render, parts: seq<Part>, out: string, all: Option<string>) {
    var rest := Run(args, render, parts);
    all == if rest.None? then None else Some(out + rest.value)
  }

  lemma RanStep(args: Args, render: Render, parts: seq<Part>, out: string, all: Option<string>)
    requires parts != [] && Ran(args, render, parts, out, all)
    ensures var text := RunPart(args, render, parts[0]);
            if text.None? then all == None else Ran(args, render, parts[1..], out + text.value, all)
  {
    var text, rest := RunPart(args, render, parts[0]), Run(args, render, parts[1..]);
    if text.Some? && rest.Some? { Associates(out, text.value, rest.value); }
  }

  /** Runs compiled parts. */
  method RunParts(args: Args, render: Render, parts: seq<Part>) returns (r: Option<string>)
    ensures r == Run(args, render, parts)
    ensures forall items :: Compiled(items, 0) == Some(parts) ==>
              r == FormatMeaning.Meaning(args.list, args.names, render, FormatMeaning.Explicit(items, 0), true)
  {
    forall items | Compiled(items, 0) == Some(parts)
      ensures Run(args, render, parts) ==
              FormatMeaning.Meaning(args.list, args.names, render, FormatMeaning.Explicit(items, 0), true)
    {
      FormatMeaning.RunMeaning(args, render, items, parts);
    }
    var out := "";
    ghost var all := Run(args, render, parts);
    assert all.Some? ==> "" + all.value == all.value;
    for i := 0 to |parts|
      invariant Ran(args, render, parts[i..], out, all)
    {
      RanStep(args, render, parts[i..], out, all);
      assert parts[i..][1..] == parts[i + 1..];
      var text;
      match parts[i] {
        case TextPart(t) =>
          text := Some(t);
        case ArgPart(ref) =>
          text := Visit(render, Lookup(args, ref), None);
        case ReplacementPart(_, _, _, _) =>
          text := RunReplacement(args, render, parts[i]);
      }
      if text.None? { return None; }
      out := out + text.value;
    }
    assert out + "" == out;
    r := Some(out);
  }
}
