/**
 Formatting by interpreting a format string directly, and by compiling it into parts that are
 run later. Rendering one argument under given specifications is a parameter of both.
 */
module FormatCompile {
  import opened Sequences
  import opened Options
  import opened FormatString

  /** Argument types in the order in which the range tests of the source rely on. */
  datatype Kind =
    | NoneKind
    | IntKind | UIntKind | LongLongKind | ULongLongKind | Int128Kind | UInt128Kind | BoolKind | CharKind
    | FloatKind | DoubleKind | LongDoubleKind
    | CStringKind | StringKind | PointerKind

  /** An argument; `number` is its value if its kind is an integer, and `data` anything else. */
  datatype Arg = Arg(kind: Kind, number: int, data: string)

  datatype Args = Args(list: seq<Arg>, names: map<string, nat>)

  datatype Specs = Specs(
    fill: string, align: Option<Align>, sign: Option<Sign>, alt: bool, width: int, precision: int, kind: char)

  type Render = (Arg, Option<Specs>) -> Option<string>

  const MAX_FILL: nat := 4
  const DEFAULT: Specs := Specs(" ", None, None, false, 0, -1, '\0')

  predicate IsInteger(kind: Kind) {
    kind in {IntKind, UIntKind, LongLongKind, ULongLongKind, Int128Kind, UInt128Kind}
  }

  predicate IsIntegral(kind: Kind) { IsInteger(kind) || kind == BoolKind || kind == CharKind }

  predicate IsArithmetic(kind: Kind) {
    IsIntegral(kind) || kind == FloatKind || kind == DoubleKind || kind == LongDoubleKind
  }

  /** Whether a sign may be given. */
  predicate IsSigned(kind: Kind) {
    IsArithmetic(kind) && (IsIntegral(kind) ==> kind in {IntKind, LongLongKind, CharKind})
  }

  // ----- argument references

  datatype Ref = NoRef | ByIndex(index: nat) | ByName(name: string)

  /** The argument an id refers to, given the state of the numbering, and the next state. */
  function Resolve(id: ArgId, next: int): Option<(Ref, int)> {
    match id
    case Auto => if next >= 0 then Some((ByIndex(next), next + 1)) else None
    case Index(i) => if next > 0 then None else Some((ByIndex(i), -1))
    case Name(name) => Some((ByName(name), next))
  }

  function Get(args: Args, i: nat): Option<Arg> { if i < |args.list| then Some(args.list[i]) else None }

  function Lookup(args: Args, ref: Ref): Option<Arg> {
    match ref
    case NoRef => None
    case ByIndex(i) => Get(args, i)
    case ByName(name) => if name in args.names then Get(args, args.names[name]) else None
  }

  /** A width or precision taken from an argument; 128-bit values are cut to 64 bits. */
  function DynamicValue(arg: Option<Arg>): Option<nat> {
    if arg.None? || !IsInteger(arg.value.kind) || arg.value.number < 0 then None
    else
      var value := arg.value.number % 0x1_0000_0000_0000_0000;
      if value > INT_MAX then None else Some(value)
  }

  // ----- what a format string means

  function Fill(spec: Spec): string {
    var fill := if spec.fill.Some? then spec.fill.value else DEFAULT.fill;
    if spec.zero && fill != "" then "0" + fill[1..] else fill
  }

  /** The specifications as set by the parser, with width and precision still to be filled in. */
  function SpecsOf(spec: Spec, width: int, precision: int): Specs {
    Specs(Fill(spec), if spec.zero then Some(Numeric) else spec.align, spec.sign, spec.hash, width, precision,
          if spec.kind.Some? then spec.kind.value else DEFAULT.kind)
  }

  predicate FillFits(spec: Spec) { spec.fill.Some? ==> |spec.fill.value| <= MAX_FILL }

  /** The specifications that an argument of the given kind may have. */
  predicate Allowed(spec: Spec, kind: Kind) {
    (spec.zero || spec.hash || spec.align == Some(Numeric) ==> IsArithmetic(kind)) &&
    (spec.sign.Some? ==> IsSigned(kind)) &&
    (spec.precision != Absent ==> !IsIntegral(kind) && kind != PointerKind)
  }

  function CountValue(args: Args, count: Count, absent: int, next: int): Option<(int, int)> {
    match count
    case Absent => Some((absent, next))
    case Static(n) => Some((n, next))
    case Dynamic(id) =>
      var (ref, next') :- Resolve(id, next);
      var n :- DynamicValue(Lookup(args, ref));
      Some((n, next'))
  }

  /** The specifications in force for an argument of the given kind, if they are allowed for it. */
  function SpecsFor(args: Args, kind: Kind, spec: Spec, next: int): Option<(Specs, int)> {
    var (width, next2) :- CountValue(args, spec.width, DEFAULT.width, next);
    var (precision, next3) :- CountValue(args, spec.precision, DEFAULT.precision, next2);
    if FillFits(spec) && Allowed(spec, kind) then Some((SpecsOf(spec, width, precision), next3)) else None
  }

  function SpecsText(args: Args, render: Render, arg: Arg, spec: Spec, next: int): Option<(string, int)> {
    var (specs, next') :- SpecsFor(args, arg.kind, spec, next);
    var text :- render(arg, Some(specs));
    Some((text, next'))
  }

  /** The text of a field, and the state of the numbering behind it. */
  function FieldText(args: Args, render: Render, field: Field, next: int): Option<(string, int)> {
    var (ref, next1) :- Resolve(field.id, next);
    var arg :- Lookup(args, ref);
    if field.spec.None? then
      var text :- render(arg, None);
      Some((text, next1))
    else
      SpecsText(args, render, arg, field.spec.value, next1)
  }

  function ItemText(args: Args, render: Render, item: Item, next: int): Option<(string, int)> {
    match item
    case Text(text) => Some((text, next))
    case Replacement(field) => FieldText(args, render, field, next)
    case Error => None
  }

  /** The text that a stream of parser events stands for; None if there is any error. */
  function Formatted(args: Args, render: Render, items: seq<Item>, next: int): Option<string> {
    if items == [] then Some("")
    else
      var (text, next') :- ItemText(args, render, items[0], next);
      var rest :- Formatted(args, render, items[1..], next');
      Some(text + rest)
  }

  // ----- parts

  datatype Part =
    | TextPart(text: string)
    | ArgPart(arg: Ref)
    | ReplacementPart(arg: Ref, specs: Specs, widthRef: Ref, precisionRef: Ref)

  function CountRef(count: Count, next: int): Option<(Ref, int)> {
    if count.Dynamic? then Resolve(count.id, next) else Some((NoRef, next))
  }

  function StaticOr(count: Count, absent: int): int { if count.Static? then count.n else absent }

  function CompileSpecs(ref: Ref, spec: Spec, next: int): (r: Option<(Part, int)>)
    ensures r.Some? ==> r.value.0.ReplacementPart? && r.value.0.arg == ref
  {
    var (width, next2) :- CountRef(spec.width, next);
    var (precision, next3) :- CountRef(spec.precision, next2);
    if FillFits(spec) then
      var specs := SpecsOf(spec, StaticOr(spec.width, DEFAULT.width), StaticOr(spec.precision, DEFAULT.precision));
      Some((ReplacementPart(ref, specs, width, precision), next3))
    else None
  }

  function CompileField(field: Field, next: int): (r: Option<(Part, int)>)
    ensures r.Some? ==> !r.value.0.TextPart?
  {
    var (ref, next1) :- Resolve(field.id, next);
    if field.spec.None? then Some((ArgPart(ref), next1))
    else
      CompileSpecs(ref, field.spec.value, next1)
  }

  function CompileItem(item: Item, next: int): Option<(seq<Part>, int)> {
    match item
    case Text(text) => Some((if text == "" then [] else [TextPart(text)], next))
    case Replacement(field) =>
      var (part, next') :- CompileField(field, next);
      Some(([part], next'))
    case Error => None
  }

  function Compiled(items: seq<Item>, next: int): Option<seq<Part>> {
    if items == [] then Some([])
    else
      var (parts, next') :- CompileItem(items[0], next);
      var rest :- Compiled(items[1..], next');
      Some(parts + rest)
  }

  // ----- running parts

  function ResolveSpec(args: Args, value: int, ref: Ref): Option<int> {
    if ref == NoRef then Some(value)
    else
      var n :- DynamicValue(Lookup(args, ref));
      Some(n)
  }

  /** The checks that are made when a part is run, on the final specifications. */
  predicate Checked(specs: Specs, kind: Kind) {
    (specs.align == Some(Numeric) ==> IsArithmetic(kind)) &&
    (specs.sign.Some? ==> IsSigned(kind)) &&
    (specs.alt ==> IsArithmetic(kind)) &&
    (specs.precision >= 0 ==> !IsIntegral(kind) && kind != PointerKind)
  }

  /** A missing argument is visited like any other and prints nothing. */
  function Visit(render: Render, arg: Option<Arg>, specs: Option<Specs>): Option<string> {
    if arg.None? then Some("") else render(arg.value, specs)
  }

  function RunPart(args: Args, render: Render, part: Part): Option<string> {
    match part
    case TextPart(text) => Some(text)
    case ArgPart(ref) => Visit(render, Lookup(args, ref), None)
    case ReplacementPart(ref, specs, widthRef, precisionRef) =>
      var arg := Lookup(args, ref);
      var width :- ResolveSpec(args, specs.width, widthRef);
      var precision :- ResolveSpec(args, specs.precision, precisionRef);
      var final := specs.(width := width, precision := precision);
      if Checked(final, if arg.Some? then arg.value.kind else NoneKind) then Visit(render, arg, Some(final)) else None
  }

  function Run(args: Args, render: Render, parts: seq<Part>): Option<string> {
    if parts == [] then Some("")
    else
      var text :- RunPart(args, render, parts[0]);
      var rest :- Run(args, render, parts[1..]);
      Some(text + rest)
  }

  predicate IsSupplied(args: Args, part: Part) { part.TextPart? || Lookup(args, part.arg).Some? }

  /** Every part finds the argument it formats. */
  ghost predicate Supplied(args: Args, parts: seq<Part>) {
    forall i :: 0 <= i < |parts| ==> IsSupplied(args, parts[i])
  }

  // ----- the two mean the same

  /** A width or precision saved for later has the value that it has while parsing. */
  lemma CountAgrees(args: Args, count: Count, absent: int, next: int)
    ensures var now, ref := CountValue(args, count, absent, next), CountRef(count, next);
            now == if ref.None? then None
                   else var later := ResolveSpec(args, StaticOr(count, absent), ref.value.0);
                        if later.None? then None else Some((later.value, ref.value.1))
    ensures var now := CountValue(args, count, absent, next);
            now.Some? && absent < 0 ==> (now.value.0 >= 0 <==> count != Absent)
  {}

  /** The checks at the end of a run are those made while parsing. */
  lemma ChecksAgree(spec: Spec, kind: Kind, width: int, precision: int)
    requires precision >= 0 <==> spec.precision != Absent
    ensures Checked(SpecsOf(spec, width, precision), kind) <==> Allowed(spec, kind)
  {}

  lemma SpecsAgree(args: Args, render: Render, ref: Ref, spec: Spec, next: int)
    requires Lookup(args, ref).Some?
    ensures var now, compiled := SpecsText(args, render, Lookup(args, ref).value, spec, next), CompileSpecs(ref, spec, next);
            now == if compiled.None? then None
                   else var later := RunPart(args, render, compiled.value.0);
                        if later.None? then None else Some((later.value, compiled.value.1))
  {
    CountAgrees(args, spec.width, DEFAULT.width, next);
    var width := CountRef(spec.width, next);
    if width.Some? {
      CountAgrees(args, spec.precision, DEFAULT.precision, width.value.1);
      var w := CountValue(args, spec.width, DEFAULT.width, next);
      var p := CountValue(args, spec.precision, DEFAULT.precision, width.value.1);
      if w.Some? && p.Some? {
        ChecksAgree(spec, Lookup(args, ref).value.kind, w.value.0, p.value.0);
      }
    }
  }

  /** One field: compiling and running it is formatting it, if its argument is supplied. */
  lemma FieldAgrees(args: Args, render: Render, field: Field, next: int)
    ensures var now, compiled := FieldText(args, render, field, next), CompileField(field, next);
            now == if compiled.None? || Lookup(args, compiled.value.0.arg).None? then None
                   else var later := RunPart(args, render, compiled.value.0);
                        if later.None? then None else Some((later.value, compiled.value.1))
  {
    var resolved := Resolve(field.id, next);
    if resolved.Some? && field.spec.Some? && Lookup(args, resolved.value.0).Some? {
      SpecsAgree(args, render, resolved.value.0, field.spec.value, resolved.value.1);
    }
  }

  lemma CompiledCons(item: Item, items: seq<Item>, next: int)
    ensures Compiled([item] + items, next) ==
            var compiled := CompileItem(item, next);
            if compiled.None? then None
            else var tail := Compiled(items, compiled.value.1);
                 if tail.None? then None else Some(compiled.value.0 + tail.value)
  {
    assert ([item] + items)[1..] == items;
  }

  lemma RunCons(args: Args, render: Render, part: Part, rest: seq<Part>)
    ensures Run(args, render, [part] + rest) ==
            var text, more := RunPart(args, render, part), Run(args, render, rest);
            if text.None? || more.None? then None else Some(text.value + more.value)
    ensures Supplied(args, [part] + rest) <==> Supplied(args, [part]) && Supplied(args, rest)
  {
    var parts := [part] + rest;
    assert parts[1..] == rest && parts[0] == [part][0] == part;
    assert forall i :: 0 <= i < |rest| ==> rest[i] == parts[i + 1];
  }

  lemma RunText(args: Args, render: Render, text: string, rest: seq<Part>)
    ensures var parts := (if text == "" then [] else [TextPart(text)]) + rest;
            (Supplied(args, parts) <==> Supplied(args, rest)) &&
            Run(args, render, parts) ==
            var more := Run(args, render, rest);
            if more.None? then None else Some(text + more.value)
  {
    if text == "" {
      assert [] + rest == rest;
      var more := Run(args, render, rest);
      assert more.Some? ==> "" + more.value == more.value;
    } else {
      RunCons(args, render, TextPart(text), rest);
    }
  }

  /** What running a compiled stream yields if all its arguments are supplied. */
  ghost function Later(args: Args, render: Render, parts: Option<seq<Part>>): Option<string> {
    if parts.None? || !Supplied(args, parts.value) then None else Run(args, render, parts.value)
  }

  /**
   The direct form fails, or yields what running the compiled form yields; and it fails exactly
   if compiling fails, or running fails, or an argument is missing.
   */
  lemma {:induction false} StreamAgrees(args: Args, render: Render, items: seq<Item>, next: int)
    ensures Formatted(args, render, items, next) == Later(args, render, Compiled(items, next))
  {
    if items != [] {
      var compiled := CompileItem(items[0], next);
      if compiled.Some? {
        var tail := Compiled(items[1..], compiled.value.1);
        StreamAgrees(args, render, items[1..], compiled.value.1);
        match items[0] {
          case Text(text) =>
            if tail.Some? { RunText(args, render, text, tail.value); }
          case Replacement(field) =>
            FieldAgrees(args, render, field, next);
            if tail.Some? { RunCons(args, render, compiled.value.0[0], tail.value); }
          case Error =>
        }
      } else if items[0].Replacement? {
        FieldAgrees(args, render, items[0].field, next);
      }
    }
  }

  /**
   Whether running a part without its argument is an error nevertheless: because a dynamic
   width or precision is, or because of a component that a missing argument may not have.
   */
  predicate Rejected(args: Args, part: Part) {
    part.ReplacementPart? &&
    (Unresolved(args, part.widthRef) || Unresolved(args, part.precisionRef) ||
     part.specs.align == Some(Numeric) || part.specs.sign.Some? || part.specs.alt)
  }

  predicate Unresolved(args: Args, ref: Ref) { ref != NoRef && DynamicValue(Lookup(args, ref)).None? }

  /** Without its argument a part prints nothing, unless it is rejected. */
  lemma RunUnsupplied(args: Args, render: Render, part: Part)
    requires !IsSupplied(args, part)
    ensures RunPart(args, render, part) == if Rejected(args, part) then None else Some("")
  {}

  lemma {:induction false} RunFails(args: Args, render: Render, parts: seq<Part>)
    ensures Run(args, render, parts).None? <==> exists i :: 0 <= i < |parts| && RunPart(args, render, parts[i]).None?
  {
    if parts != [] {
      RunFails(args, render, parts[1..]);
      if RunPart(args, render, parts[0]).Some? && Run(args, render, parts[1..]).None? {
        var i :| 0 <= i < |parts| - 1 && RunPart(args, render, parts[1..][i]).None?;
        assert parts[i + 1] == parts[1..][i];
      }
      assert forall i :: 0 < i < |parts| ==> parts[i] == parts[1..][i - 1];
    }
  }

  /**
   With every referenced argument supplied the compiled form means the same as the direct one;
   without, the direct form fails. They agree if and only if no argument is missing, or some
   part without its argument is rejected, or some part with its argument cannot be formatted.
   */
  lemma CompiledMeansDirect(args: Args, render: Render, items: seq<Item>, parts: seq<Part>)
    requires Compiled(items, 0) == Some(parts)
    ensures !Supplied(args, parts) ==> Formatted(args, render, items, 0).None?
    ensures Run(args, render, parts) == Formatted(args, render, items, 0)
            <==> (forall i :: 0 <= i < |parts| ==> IsSupplied(args, parts[i])) ||
                 exists i :: 0 <= i < |parts| &&
                   if IsSupplied(args, parts[i]) then RunPart(args, render, parts[i]).None? else Rejected(args, parts[i])
  {
    StreamAgrees(args, render, items, 0);
    RunFails(args, render, parts);
    forall i | 0 <= i < |parts| && !IsSupplied(args, parts[i])
      ensures RunPart(args, render, parts[i]).None? <==> Rejected(args, parts[i])
    {
      RunUnsupplied(args, render, parts[i]);
    }
  }

  /**
   If every part that has its argument can be formatted, the two forms differ if and only if
   some part lacks its argument and none of those that do is rejected.
   */
  lemma FormsDiffer(args: Args, render: Render, items: seq<Item>, parts: seq<Part>)
    requires Compiled(items, 0) == Some(parts)
    requires forall i :: 0 <= i < |parts| && IsSupplied(args, parts[i]) ==> RunPart(args, render, parts[i]).Some?
    ensures Run(args, render, parts) != Formatted(args, render, items, 0)
            <==> (exists i :: 0 <= i < |parts| && !IsSupplied(args, parts[i])) &&
                 forall i :: 0 <= i < |parts| && !IsSupplied(args, parts[i]) ==> !Rejected(args, parts[i])
  {
    CompiledMeansDirect(args, render, items, parts);
  }

  /** A missing argument is an error of the direct form alone. */
  lemma MissingExample(render: Render)
    ensures var items, args := Parse("", "{}"), Args([], map[]);
            Formatted(args, render, items, 0) == None &&
            Compiled(items, 0).Some? && Run(args, render, Compiled(items, 0).value) == Some("")
  {
    var items, args := Parse("", "{}"), Args([], map[]);
    var field := Replacement(Field(Auto, None));
    ParseOpen("", "{}");
    assert "{}"[1..] == "}" && "}"[1..] == "";
    assert items == [Text(""), field, Text("")];
    assert items == [Text("")] + ([field] + ([Text("")] + []));
    var part := ArgPart(ByIndex(0));
    assert CompileItem(field, 0) == Some(([part], 1));
    CompiledCons(Text(""), [], 1);
    CompiledCons(field, [Text("")] + [], 0);
    CompiledCons(Text(""), [field] + ([Text("")] + []), 0);
    var none: seq<Part> := [];
    assert none + ([part] + (none + none)) == [part] && [part] + none == [part];
    RunCons(args, render, part, []);
    CompiledMeansDirect(args, render, items, [part]);
    assert [part][0].ArgPart?;
  }

  // ----- automatic numbering

  function NestedId(count: Count): seq<ArgId> { if count.Dynamic? then [count.id] else [] }

  function FieldIds(field: Field): seq<ArgId> {
    [field.id] + if field.spec.None? then [] else NestedId(field.spec.value.width) + NestedId(field.spec.value.precision)
  }

  /** All argument ids of a stream, in the order in which they are written. */
  function Ids(items: seq<Item>): seq<ArgId> {
    if items == [] then []
    else (if items[0].Replacement? then FieldIds(items[0].field) else []) + Ids(items[1..])
  }

  function NestedRef(ref: Ref): seq<Ref> { if ref == NoRef then [] else [ref] }

  function PartRefs(part: Part): seq<Ref> {
    match part
    case TextPart(_) => []
    case ArgPart(ref) => [ref]
    case ReplacementPart(ref, _, width, precision) => [ref] + (NestedRef(width) + NestedRef(precision))
  }

  /** All argument references of compiled parts. */
  function Refs(parts: seq<Part>): seq<Ref> {
    if parts == [] then [] else PartRefs(parts[0]) + Refs(parts[1..])
  }

  /** Automatic ids count up from `first`; the others say themselves what they refer to. */
  ghost function Numbered(ids: seq<ArgId>, first: nat): seq<Ref> {
    if ids == [] then []
    else
      [match ids[0] case Auto => ByIndex(first) case Index(i) => ByIndex(i) case Name(name) => ByName(name)] +
      Numbered(ids[1..], if ids[0] == Auto then first + 1 else first)
  }

  /** The numbering of a whole sequence of ids, and the state behind it. */
  ghost function Resolved(ids: seq<ArgId>, next: int): Option<(seq<Ref>, int)> {
    if ids == [] then Some(([], next))
    else
      var (ref, next1) :- Resolve(ids[0], next);
      var (refs, next2) :- Resolved(ids[1..], next1);
      Some(([ref] + refs, next2))
  }

  ghost predicate HasIndex(ids: seq<ArgId>) { exists i :: 0 <= i < |ids| && ids[i].Index? }

  lemma {:induction false} ResolvedConcat(a: seq<ArgId>, b: seq<ArgId>, next: int)
    ensures var first := Resolved(a, next);
            Resolved(a + b, next) ==
            if first.None? then None
            else var second := Resolved(b, first.value.1);
                 if second.None? then None else Some((first.value.0 + second.value.0, second.value.1))
  {
    if a == [] {
      assert a + b == b;
      var second := Resolved(b, next);
      assert second.Some? ==> [] + second.value.0 == second.value.0;
    } else {
      assert (a + b)[1..] == a[1..] + b;
      var head := Resolve(a[0], next);
      if head.Some? {
        ResolvedConcat(a[1..], b, head.value.1);
        var first := Resolved(a[1..], head.value.1);
        if first.Some? {
          var second := Resolved(b, first.value.1);
          assert second.Some? ==>
            [head.value.0] + (first.value.0 + second.value.0) == ([head.value.0] + first.value.0) + second.value.0;
        }
      }
    }
  }

  /** Which sequences of ids can be numbered: those that do not switch between the two ways. */
  lemma {:induction false} NumberingIsUniform(ids: seq<ArgId>, next: int)
    requires next >= -1
    ensures var resolved := Resolved(ids, next);
            (resolved.Some? <==> !((next > 0 || Auto in ids) && HasIndex(ids)) && !(next < 0 && Auto in ids)) &&
            (resolved.Some? ==> resolved.value.0 == Numbered(ids, if next < 0 then 0 else next))
  {
    if ids != [] {
      var head, tail := ids[0], ids[1..];
      assert Auto in ids <==> head == Auto || Auto in tail;
      HasIndexTail(ids);
      var resolved := Resolve(head, next);
      if resolved.Some? {
        NumberingIsUniform(tail, resolved.value.1);
      }
    }
  }

  lemma HasIndexTail(ids: seq<ArgId>)
    requires ids != []
    ensures HasIndex(ids) <==> ids[0].Index? || HasIndex(ids[1..])
  {
    if HasIndex(ids) && !ids[0].Index? {
      var i :| 0 <= i < |ids| && ids[i].Index?;
      assert ids[1..][i - 1].Index?;
    }
    if HasIndex(ids[1..]) {
      var i :| 0 <= i < |ids| - 1 && ids[1..][i].Index?;
      assert ids[i + 1].Index?;
    }
  }

  predicate ItemFits(item: Item) {
    match item
    case Text(_) => true
    case Replacement(field) => field.spec.None? || FillFits(field.spec.value)
    case Error => false
  }

  function ItemIds(item: Item): seq<ArgId> { if item.Replacement? then FieldIds(item.field) else [] }

  lemma NestedResolved(count: Count, next: int)
    ensures var ref, resolved := CountRef(count, next), Resolved(NestedId(count), next);
            (ref.Some? <==> resolved.Some?) &&
            (ref.Some? ==> resolved.value == (NestedRef(ref.value.0), ref.value.1))
  {
    if count.Dynamic? {
      OneResolved(count.id, next);
    }
  }

  lemma OneResolved(id: ArgId, next: int)
    ensures var ref, resolved := Resolve(id, next), Resolved([id], next);
            (ref.Some? <==> resolved.Some?) && (ref.Some? ==> resolved.value == ([ref.value.0], ref.value.1))
  {
    assert [id][1..] == [];
    var ref := Resolve(id, next);
    assert ref.Some? ==> [ref.value.0] + [] == [ref.value.0];
  }

  lemma SpecsResolved(ref: Ref, spec: Spec, next: int)
    ensures var part, resolved := CompileSpecs(ref, spec, next), Resolved(NestedId(spec.width) + NestedId(spec.precision), next);
            (part.Some? <==> FillFits(spec) && resolved.Some?) &&
            (part.Some? ==> [ref] + resolved.value.0 == PartRefs(part.value.0) && resolved.value.1 == part.value.1)
  {
    ResolvedConcat(NestedId(spec.width), NestedId(spec.precision), next);
    NestedResolved(spec.width, next);
    var width := CountRef(spec.width, next);
    if width.Some? {
      NestedResolved(spec.precision, width.value.1);
    }
  }

  lemma ItemResolved(item: Item, next: int)
    ensures var compiled, resolved := CompileItem(item, next), Resolved(ItemIds(item), next);
            (compiled.Some? <==> ItemFits(item) && resolved.Some?) &&
            (compiled.Some? ==> resolved.value == (Refs(compiled.value.0), compiled.value.1))
  {
    if item.Text? {
      assert Refs([]) == [] && Refs([TextPart(item.text)]) == [] + Refs([TextPart(item.text)][1..]);
      assert [TextPart(item.text)][1..] == [];
    } else if item.Replacement? {
      var field := item.field;
      OneResolved(field.id, next);
      var ref := Resolve(field.id, next);
      var nested := if field.spec.None? then [] else NestedId(field.spec.value.width) + NestedId(field.spec.value.precision);
      ResolvedConcat([field.id], nested, next);
      if ref.Some? && field.spec.Some? {
        SpecsResolved(ref.value.0, field.spec.value, ref.value.1);
      }
      var compiled := CompileItem(item, next);
      if compiled.Some? {
        var part := compiled.value.0[0];
        assert compiled.value.0[1..] == [];
        assert Refs(compiled.value.0) == PartRefs(part) + [] == PartRefs(part);
      }
    }
  }

  lemma {:induction false} RefsConcat(a: seq<Part>, b: seq<Part>)
    ensures Refs(a + b) == Refs(a) + Refs(b)
  {
    if a == [] {
      assert a + b == b;
    } else {
      RefsConcat(a[1..], b);
      RefsCons(a[0], a[1..] + b);
      Associates(PartRefs(a[0]), Refs(a[1..]), Refs(b));
      Associates([a[0]], a[1..], b);
      assert [a[0]] + a[1..] == a;
    }
  }

  lemma RefsCons(part: Part, parts: seq<Part>)
    ensures Refs([part] + parts) == PartRefs(part) + Refs(parts)
  {
    assert ([part] + parts)[1..] == parts;
  }

  lemma {:induction false} StreamResolved(items: seq<Item>, next: int)
    ensures var compiled, resolved := Compiled(items, next), Resolved(Ids(items), next);
            (compiled.Some? <==> (forall i :: 0 <= i < |items| ==> ItemFits(items[i])) && resolved.Some?) &&
            (compiled.Some? ==> resolved.value.0 == Refs(compiled.value))
  {
    if items != [] {
      var head, tail := items[0], items[1..];
      assert Ids(items) == ItemIds(head) + Ids(tail);
      assert forall i :: 0 < i < |items| ==> items[i] == tail[i - 1];
      ResolvedConcat(ItemIds(head), Ids(tail), next);
      ItemResolved(head, next);
      var compiled := CompileItem(head, next);
      if compiled.Some? {
        StreamResolved(tail, compiled.value.1);
        var rest := Compiled(tail, compiled.value.1);
        if rest.Some? { RefsConcat(compiled.value.0, rest.value); }
      }
    }
  }

  /**
   A stream compiles exactly if it has no error, no fill is too long, and it does not use both
   automatic and explicit indexes; the automatic ids, of arguments, widths and precisions
   alike, then count up from zero in the order in which they are written.
   */
  lemma CompiledNumbering(items: seq<Item>)
    ensures Compiled(items, 0).Some? <==>
            (forall i :: 0 <= i < |items| ==> ItemFits(items[i])) && !(Auto in Ids(items) && HasIndex(Ids(items)))
    ensures Compiled(items, 0).Some? ==> Refs(Compiled(items, 0).value) == Numbered(Ids(items), 0)
  {
    StreamResolved(items, 0);
    NumberingIsUniform(Ids(items), 0);
  }
}
