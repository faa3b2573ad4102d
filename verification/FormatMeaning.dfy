/**
 What a stream of parser events prints, said directly over the list of the arguments and their
 names: which argument each field shows, and which specifications it is shown with.
 */
module FormatMeaning {
  import opened Sequences
  import opened Options
  import opened FormatString
  import opened FormatCompile
  import opened FormatRoundTrip

  // ----- the meaning of a field with explicit ids

  /** The argument at an index, or under a name. */
  function Fetch(list: seq<Arg>, names: map<string, nat>, id: ArgId): Option<Arg>
    requires id != Auto
  {
    if id.Index? then if id.index < |list| then Some(list[id.index]) else None
    else if id.name in names && names[id.name] < |list| then Some(list[names[id.name]])
    else None
  }

  /** An integer that fits a 64-bit word is taken as it is, if it fits an int; a wider one loses its upper half. */
  function Number(arg: Arg): Option<nat> {
    var n := arg.number;
    if arg.kind !in {IntKind, UIntKind, LongLongKind, ULongLongKind, Int128Kind, UInt128Kind} || n < 0 then None
    else if n <= 0x7fff_ffff then Some(n)
    else if n % 0x1_0000_0000_0000_0000 <= 0x7fff_ffff then Some(n % 0x1_0000_0000_0000_0000)
    else None
  }

  function Measure(list: seq<Arg>, names: map<string, nat>, count: Count, absent: int): Option<int>
    requires count != Dynamic(Auto)
  {
    match count
    case Absent => Some(absent)
    case Static(n) => Some(n)
    case Dynamic(id) =>
      var arg :- Fetch(list, names, id);
      var n :- Number(arg);
      Some(n)
  }

  /** Which components of a specification a kind of argument puts up with. */
  predicate Accepts(kind: Kind, spec: Spec) {
    (kind in {NoneKind, CStringKind, StringKind, PointerKind} ==>
      !spec.zero && !spec.hash && spec.align != Some(Numeric) && spec.sign == None) &&
    (kind in {UIntKind, ULongLongKind, Int128Kind, UInt128Kind, BoolKind} ==> spec.sign == None) &&
    (spec.precision == Absent || kind in {NoneKind, FloatKind, DoubleKind, LongDoubleKind, CStringKind, StringKind})
  }

  /** The zero flag pads with zeros behind the sign; the fill is otherwise what is given, or a space. */
  function Handed(spec: Spec, width: int, precision: int): Specs {
    var fill :=
      if spec.zero && spec.fill != Some("") then "0" + (if spec.fill.Some? then spec.fill.value[1..] else "")
      else if spec.fill.Some? then spec.fill.value
      else " ";
    Specs(fill, if spec.zero then Some(Numeric) else spec.align, spec.sign, spec.hash, width, precision,
          if spec.kind.Some? then spec.kind.value else '\0')
  }

  predicate IsExplicit(field: Field) {
    field.id != Auto &&
    (field.spec.Some? ==> field.spec.value.width != Dynamic(Auto) && field.spec.value.precision != Dynamic(Auto))
  }

  /** What a missing argument prints: an error, or if the parts are run later, nothing. */
  function Absence(spec: Spec, late: bool): Option<string> {
    if late && Accepts(NoneKind, spec) then Some("") else None
  }

  function Shown(list: seq<Arg>, names: map<string, nat>, render: Render, field: Field, late: bool): Option<string>
    requires IsExplicit(field)
  {
    var arg := Fetch(list, names, field.id);
    if field.spec.None? then if arg.None? then Absence(NO_SPEC, late) else render(arg.value, None)
    else
      var spec := field.spec.value;
      var width :- Measure(list, names, spec.width, 0);
      var precision :- Measure(list, names, spec.precision, -1);
      if spec.fill.Some? && |spec.fill.value| > 4 then None
      else if arg.None? then Absence(spec, late)
      else if Accepts(arg.value.kind, spec) then render(arg.value, Some(Handed(spec, width, precision)))
      else None
  }

  // ----- the meaning of a stream with explicit ids

  predicate IsExplicitItem(item: Item) { item.Replacement? ==> IsExplicit(item.field) }

  predicate AllExplicit(items: seq<Item>) { forall i :: 0 <= i < |items| ==> IsExplicitItem(items[i]) }

  function Piece(list: seq<Arg>, names: map<string, nat>, render: Render, item: Item, late: bool): Option<string>
    requires IsExplicitItem(item)
  {
    match item
    case Text(text) => Some(text)
    case Replacement(field) => Shown(list, names, render, field, late)
    case Error => None
  }

  /** The texts and the fields one after the other; None if any of them is an error. */
  function Meaning(list: seq<Arg>, names: map<string, nat>, render: Render, items: seq<Item>, late: bool): Option<string>
    requires AllExplicit(items)
  {
    if items == [] then Some("")
    else
      var text :- Piece(list, names, render, items[0], late);
      assert forall i :: 0 <= i < |items| - 1 ==> items[1..][i] == items[i + 1];
      var rest :- Meaning(list, names, render, items[1..], late);
      Some(text + rest)
  }

  lemma FetchIs(args: Args, id: ArgId, next: int)
    requires id != Auto && next <= 0
    ensures var resolved := Resolve(id, next);
            resolved.Some? && resolved.value.1 <= 0 && resolved.value.0 != NoRef &&
            Lookup(args, resolved.value.0) == Fetch(args.list, args.names, id)
  {}

  lemma NumberIs(arg: Arg)
    ensures DynamicValue(Some(arg)) == Number(arg)
  {}

  lemma MeasureIs(args: Args, count: Count, absent: int, next: int)
    requires count != Dynamic(Auto) && next <= 0
    ensures var now, measure := CountValue(args, count, absent, next), Measure(args.list, args.names, count, absent);
            if now.None? then measure == None else measure == Some(now.value.0) && now.value.1 <= 0
    ensures var ref, measure := CountRef(count, next), Measure(args.list, args.names, count, absent);
            ref.Some? && ref.value.1 <= 0 && ResolveSpec(args, StaticOr(count, absent), ref.value.0) == measure
  {
    if count.Dynamic? {
      FetchIs(args, count.id, next);
      var arg := Fetch(args.list, args.names, count.id);
      if arg.Some? { NumberIs(arg.value); }
    }
  }

  lemma HandedIs(spec: Spec, width: int, precision: int)
    ensures SpecsOf(spec, width, precision) == Handed(spec, width, precision)
  {
    assert " "[1..] == "";
  }

  lemma AcceptsIs(spec: Spec, kind: Kind)
    ensures Allowed(spec, kind) <==> Accepts(kind, spec)
  {}

  lemma MeasuredSign(list: seq<Arg>, names: map<string, nat>, count: Count)
    requires count != Dynamic(Auto)
    ensures var n := Measure(list, names, count, -1); n.Some? ==> (n.value >= 0 <==> count != Absent)
  {}

  /** A field with explicit ids, formatted at once. */
  lemma ShownNow(args: Args, render: Render, field: Field, next: int)
    requires IsExplicit(field) && next <= 0
    ensures var now, shown := FieldText(args, render, field, next), Shown(args.list, args.names, render, field, false);
            if now.None? then shown == None else shown == Some(now.value.0) && now.value.1 <= 0
  {
    FetchIs(args, field.id, next);
    var (ref, next1) := Resolve(field.id, next).value;
    if field.spec.Some? {
      var spec := field.spec.value;
      MeasureIs(args, spec.width, 0, next1);
      var width := CountValue(args, spec.width, 0, next1);
      if width.Some? {
        MeasureIs(args, spec.precision, -1, width.value.1);
        var precision := CountValue(args, spec.precision, -1, width.value.1);
        var arg := Lookup(args, ref);
        if precision.Some? && arg.Some? {
          HandedIs(spec, width.value.0, precision.value.0);
          AcceptsIs(spec, arg.value.kind);
        }
      }
    }
  }

  /** A field with explicit ids, compiled and run. */
  lemma ShownLater(args: Args, render: Render, field: Field, next: int)
    requires IsExplicit(field) && next <= 0
    ensures var compiled, shown := CompileField(field, next), Shown(args.list, args.names, render, field, true);
            if compiled.None? then field.spec.Some? && !FillFits(field.spec.value)
            else compiled.value.1 <= 0 && RunPart(args, render, compiled.value.0) == shown
  {
    FetchIs(args, field.id, next);
    var (ref, next1) := Resolve(field.id, next).value;
    if field.spec.Some? {
      var spec := field.spec.value;
      MeasureIs(args, spec.width, 0, next1);
      var (widthRef, next2) := CountRef(spec.width, next1).value;
      MeasureIs(args, spec.precision, -1, next2);
      var arg := Lookup(args, ref);
      var width := Measure(args.list, args.names, spec.width, 0);
      var precision := Measure(args.list, args.names, spec.precision, -1);
      if width.Some? && precision.Some? && FillFits(spec) {
        MeasuredSign(args.list, args.names, spec.precision);
        var kind := if arg.Some? then arg.value.kind else NoneKind;
        ChecksAgree(spec, kind, width.value, precision.value);
        AcceptsIs(spec, kind);
        HandedIs(spec, width.value, precision.value);
      }
    }
  }

  lemma ExplicitTail(items: seq<Item>)
    requires items != [] && AllExplicit(items)
    ensures IsExplicitItem(items[0]) && AllExplicit(items[1..])
  {}

  /** A stream with explicit ids, formatted at once. */
  lemma {:induction false} ExplicitNow(args: Args, render: Render, items: seq<Item>, next: int)
    requires AllExplicit(items) && next <= 0
    ensures Formatted(args, render, items, next) == Meaning(args.list, args.names, render, items, false)
  {
    if items != [] {
      ExplicitTail(items);
      if items[0].Replacement? { ShownNow(args, render, items[0].field, next); }
      var now := ItemText(args, render, items[0], next);
      if now.Some? { ExplicitNow(args, render, items[1..], now.value.1); }
    }
  }

  /** A stream with explicit ids, compiled and run. */
  lemma {:induction false} ExplicitLater(args: Args, render: Render, items: seq<Item>, next: int)
    requires AllExplicit(items) && next <= 0
    ensures var parts := Compiled(items, next);
            parts.Some? ==> Run(args, render, parts.value) == Meaning(args.list, args.names, render, items, true)
  {
    if items != [] {
      ExplicitTail(items);
      var compiled := CompileItem(items[0], next);
      if compiled.Some? {
        var rest := Compiled(items[1..], compiled.value.1);
        if items[0].Replacement? {
          ShownLater(args, render, items[0].field, next);
          if rest.Some? { RunCons(args, render, compiled.value.0[0], rest.value); }
        } else if rest.Some? {
          RunText(args, render, items[0].text, rest.value);
        }
        if rest.Some? { ExplicitLater(args, render, items[1..], compiled.value.1); }
      }
    }
  }

  // ----- automatic ids are explicit ones that count up

  function ExplicitId(id: ArgId, k: nat): (r: ArgId)
    ensures r != Auto
  {
    if id == Auto then Index(k) else id
  }

  /** How many of some ids are automatic. */
  function Autos(id: ArgId): nat { if id == Auto then 1 else 0 }

  function CountAutos(count: Count): nat { if count == Dynamic(Auto) then 1 else 0 }

  function ExplicitCount(count: Count, k: nat): (r: Count)
    ensures r != Dynamic(Auto)
  {
    if count == Dynamic(Auto) then Dynamic(Index(k)) else count
  }

  /** First the field itself, then its width, then its precision. */
  function ExplicitField(field: Field, k: nat): (r: Field)
    ensures IsExplicit(r)
  {
    var k1 := k + Autos(field.id);
    if field.spec.None? then Field(ExplicitId(field.id, k), None)
    else
      var spec := field.spec.value;
      var k2 := k1 + CountAutos(spec.width);
      Field(ExplicitId(field.id, k),
            Some(spec.(width := ExplicitCount(spec.width, k1), precision := ExplicitCount(spec.precision, k2))))
  }

  function FieldAutos(field: Field): nat {
    Autos(field.id) +
    if field.spec.None? then 0 else CountAutos(field.spec.value.width) + CountAutos(field.spec.value.precision)
  }

  /** The stream with its automatic ids written out, counting up from k. */
  function Explicit(items: seq<Item>, k: nat): (r: seq<Item>)
    ensures AllExplicit(r)
  {
    if items == [] then []
    else if items[0].Replacement? then
      [Replacement(ExplicitField(items[0].field, k))] + Explicit(items[1..], k + FieldAutos(items[0].field))
    else [items[0]] + Explicit(items[1..], k)
  }

  predicate IsIndexed(count: Count) { count.Dynamic? && count.id.Index? }

  predicate HasIndexes(field: Field) {
    field.id.Index? ||
    (field.spec.Some? && (IsIndexed(field.spec.value.width) || IsIndexed(field.spec.value.precision)))
  }

  predicate IsIndexedItem(item: Item) { item.Replacement? && HasIndexes(item.field) }

  predicate IsAutomaticItem(item: Item) { item.Replacement? && !IsExplicit(item.field) }

  /** Automatic ids and explicit indexes in one stream. */
  ghost predicate IsMixed(items: seq<Item>) {
    (exists i :: 0 <= i < |items| && IsAutomaticItem(items[i])) &&
    exists i :: 0 <= i < |items| && IsIndexedItem(items[i])
  }

  ghost predicate NoIndexes(items: seq<Item>) { forall i :: 0 <= i < |items| ==> !IsIndexedItem(items[i]) }

  lemma SameId(id: ArgId, k: nat, next: int)
    requires !id.Index? && next <= 0
    ensures var auto, expl := Resolve(id, k), Resolve(ExplicitId(id, k), next);
            auto.Some? && expl.Some? && auto.value.0 == expl.value.0 &&
            auto.value.1 == k + Autos(id) && expl.value.1 <= 0
  {}

  lemma SameCount(count: Count, k: nat, next: int)
    requires !IsIndexed(count) && next <= 0
    ensures var auto, expl := CountRef(count, k), CountRef(ExplicitCount(count, k), next);
            auto.Some? && expl.Some? && auto.value.0 == expl.value.0 &&
            auto.value.1 == k + CountAutos(count) && expl.value.1 <= 0
  {
    if count.Dynamic? { SameId(count.id, k, next); }
  }

  lemma SameField(field: Field, k: nat, next: int)
    requires !HasIndexes(field) && next <= 0
    ensures var auto, expl := CompileField(field, k), CompileField(ExplicitField(field, k), next);
            (auto.Some? <==> expl.Some?) &&
            (auto.Some? ==> auto.value.0 == expl.value.0 && auto.value.1 == k + FieldAutos(field) && expl.value.1 <= 0)
  {
    SameId(field.id, k, next);
    if field.spec.Some? {
      var spec, k1 := field.spec.value, k + Autos(field.id);
      var next1 := Resolve(ExplicitId(field.id, k), next).value.1;
      SameCount(spec.width, k1, next1);
      var next2 := CountRef(ExplicitCount(spec.width, k1), next1).value.1;
      SameCount(spec.precision, k1 + CountAutos(spec.width), next2);
    }
  }

  lemma CompiledField(field: Field, items: seq<Item>, next: int)
    ensures Compiled([Replacement(field)] + items, next) ==
            var compiled := CompileField(field, next);
            if compiled.None? then None
            else var tail := Compiled(items, compiled.value.1);
                 if tail.None? then None else Some([compiled.value.0] + tail.value)
  {
    CompiledCons(Replacement(field), items, next);
  }

  lemma NoIndexesTail(items: seq<Item>)
    requires items != [] && NoIndexes(items)
    ensures !IsIndexedItem(items[0]) && NoIndexes(items[1..]) && items == [items[0]] + items[1..]
  {}

  ghost predicate AreSame(items: seq<Item>, k: nat, next: int) { Compiled(items, k) == Compiled(Explicit(items, k), next) }

  /** The state of the numbering behind a field with its ids written out. */
  ghost function Behind(field: Field, k: nat, next: int): int {
    var expl := CompileField(ExplicitField(field, k), next);
    if expl.Some? then expl.value.1 else 0
  }

  lemma BehindIs(field: Field, k: nat, next: int)
    requires !HasIndexes(field) && next <= 0
    ensures Behind(field, k, next) <= 0
  {
    SameField(field, k, next);
  }

  lemma SameFieldFirst(field: Field, tail: seq<Item>, k: nat, next: int)
    requires !HasIndexes(field) && next <= 0 && AreSame(tail, k + FieldAutos(field), Behind(field, k, next))
    ensures AreSame([Replacement(field)] + tail, k, next)
  {
    var items, k' := [Replacement(field)] + tail, k + FieldAutos(field);
    SameField(field, k, next);
    CompiledField(field, tail, k);
    CompiledField(ExplicitField(field, k), Explicit(tail, k'), next);
    assert items[1..] == tail && Explicit(items, k) == [Replacement(ExplicitField(field, k))] + Explicit(tail, k');
  }

  lemma SameOtherFirst(head: Item, tail: seq<Item>, k: nat, next: int)
    requires !head.Replacement? && AreSame(tail, k, next)
    ensures AreSame([head] + tail, k, next)
  {
    CompiledCons(head, tail, k);
    CompiledCons(head, Explicit(tail, k), next);
    assert ([head] + tail)[1..] == tail;
  }

  /** Automatic ids compile to the parts of the explicit ones. */
  lemma {:induction false} SameParts(items: seq<Item>, k: nat, next: int)
    requires NoIndexes(items) && next <= 0
    ensures AreSame(items, k, next)
  {
    if items != [] {
      var head, tail := items[0], items[1..];
      NoIndexesTail(items);
      if head.Replacement? {
        BehindIs(head.field, k, next);
        SameParts(tail, k + FieldAutos(head.field), Behind(head.field, k, next));
        SameFieldFirst(head.field, tail, k, next);
      } else {
        SameParts(tail, k, next);
        SameOtherFirst(head, tail, k, next);
      }
    }
  }

  /** Explicit ids stay as they are. */
  lemma {:induction false} ExplicitStays(items: seq<Item>, k: nat)
    requires AllExplicit(items)
    ensures Explicit(items, k) == items
  {
    if items != [] {
      ExplicitTail(items);
      ExplicitStays(items[1..], k);
      assert items == [items[0]] + items[1..];
    }
  }

  // ----- the meaning of any stream

  lemma HasIndexConcat(a: seq<ArgId>, b: seq<ArgId>)
    ensures HasIndex(a + b) <==> HasIndex(a) || HasIndex(b)
  {
    forall i | 0 <= i < |a| && a[i].Index? ensures HasIndex(a + b) { assert (a + b)[i].Index?; }
    forall i | 0 <= i < |b| && b[i].Index? ensures HasIndex(a + b) { assert (a + b)[|a| + i].Index?; }
  }

  lemma NestedIds(count: Count)
    ensures Auto in NestedId(count) <==> count == Dynamic(Auto)
    ensures HasIndex(NestedId(count)) <==> IsIndexed(count)
  {
    if count.Dynamic? { assert NestedId(count)[0] == count.id; }
  }

  lemma FieldIdsAre(field: Field)
    ensures Auto in FieldIds(field) <==> !IsExplicit(field)
    ensures HasIndex(FieldIds(field)) <==> HasIndexes(field)
  {
    assert [field.id][0] == field.id && HasIndex([field.id]) == field.id.Index?;
    if field.spec.Some? {
      var width, precision := NestedId(field.spec.value.width), NestedId(field.spec.value.precision);
      NestedIds(field.spec.value.width);
      NestedIds(field.spec.value.precision);
      HasIndexConcat(width, precision);
      HasIndexConcat([field.id], width + precision);
    } else {
      HasIndexConcat([field.id], []);
    }
  }

  lemma {:induction false} IdsAre(items: seq<Item>)
    ensures Auto in Ids(items) <==> exists i :: 0 <= i < |items| && IsAutomaticItem(items[i])
    ensures HasIndex(Ids(items)) <==> exists i :: 0 <= i < |items| && IsIndexedItem(items[i])
  {
    if items != [] {
      var head, tail := items[0], items[1..];
      IdsAre(tail);
      assert forall i :: 0 <= i < |tail| ==> tail[i] == items[i + 1];
      assert forall i :: 0 < i < |items| ==> items[i] == tail[i - 1];
      HasIndexConcat(ItemIds(head), Ids(tail));
      assert Ids(items) == ItemIds(head) + Ids(tail);
      if head.Replacement? { FieldIdsAre(head.field); }
    }
  }

  /**
   Every stream prints its texts and its fields in order, each field showing the argument it
   names by index or by name; automatic ids stand for 0, 1, 2 and so on in the order in which
   they are written, those of widths and precisions included. Mixing them with indexes is an
   error.
   */
  lemma FormattedMeaning(args: Args, render: Render, items: seq<Item>)
    ensures Formatted(args, render, items, 0) ==
            if IsMixed(items) then None else Meaning(args.list, args.names, render, Explicit(items, 0), false)
  {
    IdsAre(items);
    StreamAgrees(args, render, items, 0);
    CompiledNumbering(items);
    if NoIndexes(items) {
      SameParts(items, 0, 0);
      StreamAgrees(args, render, Explicit(items, 0), 0);
      ExplicitNow(args, render, Explicit(items, 0), 0);
    } else if !IsMixed(items) {
      assert AllExplicit(items);
      ExplicitStays(items, 0);
      ExplicitNow(args, render, items, 0);
    }
  }

  /** Running the parts prints the same, but for missing arguments: those print nothing. */
  lemma RunMeaning(args: Args, render: Render, items: seq<Item>, parts: seq<Part>)
    requires Compiled(items, 0) == Some(parts)
    ensures !IsMixed(items) && Run(args, render, parts) == Meaning(args.list, args.names, render, Explicit(items, 0), true)
  {
    IdsAre(items);
    CompiledNumbering(items);
    if NoIndexes(items) {
      SameParts(items, 0, 0);
      ExplicitLater(args, render, Explicit(items, 0), 0);
    } else {
      assert AllExplicit(items);
      ExplicitStays(items, 0);
      ExplicitLater(args, render, items, 0);
    }
  }

  // ----- written format strings

  /** What a stream prints, character by character. */
  ghost function UnitsText(args: Args, render: Render, units: seq<Unit>, next: int): Option<string> {
    if units == [] then Some("")
    else
      var (text, next') :-
        match units[0] {
          case Char(c) => Some(([c], next))
          case Slot(field) => FieldText(args, render, field, next)
          case Broken => None
        };
      var rest :- UnitsText(args, render, units[1..], next');
      Some(text + rest)
  }

  ghost function Prepend(text: string, rest: Option<string>): Option<string> {
    if rest.None? then None else Some(text + rest.value)
  }

  lemma CharText(args: Args, render: Render, c: char, units: seq<Unit>, next: int)
    ensures UnitsText(args, render, [Char(c)] + units, next) == Prepend([c], UnitsText(args, render, units, next))
  {
    assert ([Char(c)] + units)[1..] == units;
  }

  lemma PrependTwice(a: string, b: string, rest: Option<string>)
    ensures Prepend(a, Prepend(b, rest)) == Prepend(a + b, rest)
  {
    if rest.Some? { Associates(a, b, rest.value); }
  }

  lemma {:induction false} CharsText(args: Args, render: Render, text: string, units: seq<Unit>, next: int)
    ensures UnitsText(args, render, Chars(text) + units, next) == Prepend(text, UnitsText(args, render, units, next))
  {
    var rest := UnitsText(args, render, units, next);
    if text == "" {
      assert Chars(text) + units == units;
      assert rest.Some? ==> "" + rest.value == rest.value;
    } else {
      var more := Chars(text[1..]) + units;
      CharsText(args, render, text[1..], units, next);
      assert Chars(text) + units == [Char(text[0])] + more;
      CharText(args, render, text[0], more, next);
      PrependTwice([text[0]], text[1..], rest);
      assert [text[0]] + text[1..] == text;
    }
  }

  /** How the texts of a stream are cut makes no difference. */
  lemma {:induction false} FormattedUnits(args: Args, render: Render, items: seq<Item>, next: int)
    ensures Formatted(args, render, items, next) == UnitsText(args, render, Units(items), next)
  {
    if items != [] {
      var head, tail := items[0], items[1..];
      match head
      case Text(text) =>
        FormattedUnits(args, render, tail, next);
        CharsText(args, render, text, Units(tail), next);
      case Replacement(field) =>
        var now := FieldText(args, render, field, next);
        if now.Some? { FormattedUnits(args, render, tail, now.value.1); }
        assert ([Slot(field)] + Units(tail))[1..] == Units(tail);
      case Error =>
        assert ([Broken] + Units(tail))[0] == Broken;
    }
  }

  /** A written format string prints its texts, and its fields by the arguments they name. */
  lemma WrittenMeaning(args: Args, render: Render, items: seq<Item>)
    requires CanWrite(items)
    ensures Formatted(args, render, Parse("", WriteItems(items)), 0) ==
            if IsMixed(items) then None else Meaning(args.list, args.names, render, Explicit(items, 0), false)
  {
    FormatStringRoundTrip(items);
    FormattedUnits(args, render, items, 0);
    FormattedUnits(args, render, Parse("", WriteItems(items)), 0);
    FormattedMeaning(args, render, items);
  }

  // ----- plain fields

  /** Texts with an empty pair of braces between each two. */
  function Plain(texts: seq<string>): string
    requires texts != []
  {
    if |texts| == 1 then DoubleBraces(texts[0]) else DoubleBraces(texts[0]) + ("{}" + Plain(texts[1..]))
  }

  /** The texts with the arguments between them, in order; None if there are too few. */
  function Interleaved(texts: seq<string>, list: seq<Arg>, render: Render): Option<string>
    requires texts != []
  {
    if |texts| == 1 then Some(texts[0])
    else if list == [] then None
    else
      var shown :- render(list[0], None);
      var rest :- Interleaved(texts[1..], list[1..], render);
      Some(texts[0] + (shown + rest))
  }

  ghost function PlainItems(texts: seq<string>): seq<Item>
    requires texts != []
  {
    if |texts| == 1 then [Text(texts[0])]
    else [Text(texts[0])] + ([Replacement(Field(Auto, None))] + PlainItems(texts[1..]))
  }

  lemma {:induction false} PlainIsWritten(texts: seq<string>)
    requires texts != []
    ensures CanWrite(PlainItems(texts)) && WriteItems(PlainItems(texts)) == Plain(texts)
  {
    var field := Replacement(Field(Auto, None));
    if |texts| == 1 {
      assert PlainItems(texts)[1..] == [] && DoubleBraces(texts[0]) + "" == DoubleBraces(texts[0]);
    } else {
      PlainIsWritten(texts[1..]);
      var more := PlainItems(texts[1..]);
      assert PlainItems(texts)[1..] == [field] + more && ([field] + more)[1..] == more;
      assert "{" + ("}" + Plain(texts[1..])) == "{}" + Plain(texts[1..]);
    }
  }

  lemma FormattedCons(args: Args, render: Render, item: Item, items: seq<Item>, next: int)
    ensures Formatted(args, render, [item] + items, next) ==
            var now := ItemText(args, render, item, next);
            if now.None? then None else Prepend(now.value.0, Formatted(args, render, items, now.value.1))
  {
    assert ([item] + items)[1..] == items;
  }

  lemma {:induction false} PlainFrom(args: Args, render: Render, texts: seq<string>, k: nat)
    requires texts != [] && k <= |args.list|
    ensures Formatted(args, render, PlainItems(texts), k) == Interleaved(texts, args.list[k..], render)
  {
    if |texts| == 1 {
      FormattedCons(args, render, Text(texts[0]), [], k);
      assert [Text(texts[0])] + [] == [Text(texts[0])] && texts[0] + "" == texts[0];
    } else {
      var field, more := Field(Auto, None), PlainItems(texts[1..]);
      FormattedCons(args, render, Text(texts[0]), [Replacement(field)] + more, k);
      FormattedCons(args, render, Replacement(field), more, k);
      if k < |args.list| {
        PlainFrom(args, render, texts[1..], k + 1);
        assert args.list[k..][1..] == args.list[k + 1..];
      }
    }
  }

  /** With fewer arguments than fields there is an error. */
  lemma {:induction false} TooFew(texts: seq<string>, list: seq<Arg>, render: Render)
    requires |texts| > |list| + 1
    ensures Interleaved(texts, list, render) == None
  {
    if list != [] { TooFew(texts[1..], list[1..], render); }
  }

  /**
   A format string with plain fields prints the arguments from the first one on, each once and
   in order, between its texts; with fewer arguments than fields it is an error.
   */
  lemma PlainFields(args: Args, render: Render, texts: seq<string>)
    requires texts != []
    ensures Formatted(args, render, Parse("", Plain(texts)), 0) == Interleaved(texts, args.list, render)
    ensures |texts| > |args.list| + 1 ==> Formatted(args, render, Parse("", Plain(texts)), 0) == None
  {
    PlainIsWritten(texts);
    FormatStringRoundTrip(PlainItems(texts));
    FormattedUnits(args, render, PlainItems(texts), 0);
    FormattedUnits(args, render, Parse("", Plain(texts)), 0);
    PlainFrom(args, render, texts, 0);
    assert args.list[0..] == args.list;
    if |texts| > |args.list| + 1 { TooFew(texts, args.list, render); }
  }
}
