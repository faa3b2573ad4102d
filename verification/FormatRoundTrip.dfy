/**
 Format strings as they are written, and that parsing them gives back what was written.
 Every part is written in front of what follows it.
 */
module FormatRoundTrip {
  import opened Sequences
  import opened Options
  import opened Rounding
  import opened FormatString
  import opened FormatDecimal
  import opened FormatCompile

  // ----- argument ids

  function WriteId(id: ArgId, rest: string): string {
    match id
    case Auto => rest
    case Index(i) => Printed(i) + rest
    case Name(name) => name + rest
  }

  predicate IsNamePart(c: char) { 'a' <= c <= 'z' || 'A' <= c <= 'Z' || c == '_' || '0' <= c <= '9' }

  /** Letters, digits and underscores, with no digit in front. */
  predicate IsName(s: string) { s != "" && !('0' <= s[0] <= '9') && forall i :: 0 <= i < |s| ==> IsNamePart(s[i]) }

  predicate CanWriteId(id: ArgId) {
    (id.Index? ==> id.index <= 0x7fff_ffff) && (id.Name? ==> IsName(id.name))
  }

  lemma {:induction false} NameEnds(s: string, rest: string)
    requires (forall i :: 0 <= i < |s| ==> IsNamePart(s[i])) && !IsNamePart(Head(rest))
    ensures NameLength(s + rest) == |s|
  {
    if s == "" {
      assert s + rest == rest;
    } else {
      assert (s + rest)[1..] == s[1..] + rest;
      NameEnds(s[1..], rest);
    }
  }

  /** A number has no leading zero, unless it is zero. */
  lemma {:induction false} NoLeadingZero(n: nat)
    ensures IsDigit(Printed(n)[0]) && (Printed(n)[0] == '0' <==> n == 0) && (n == 0 ==> Printed(n) == "0")
    ensures n < 10 <==> |Printed(n)| == 1
  {
    if n >= 10 { NoLeadingZero(n / 10); }
  }

  lemma IdParses(id: ArgId, rest: string)
    requires CanWriteId(id) && EndsId(rest)
    ensures ParseArgId(WriteId(id, rest)) == Ok(id, rest)
  {
    var s := WriteId(id, rest);
    match id
    case Auto =>
    case Index(i) =>
      NoLeadingZero(i);
      ReadsBack(i, rest);
      assert s[0] == Printed(i)[0];
      assert ("0" + rest)[1..] == rest;
    case Name(name) =>
      NameEnds(name, rest);
      assert s[0] == name[0] && s[..|name|] == name && s[|name|..] == rest;
  }

  // ----- width and precision

  function WriteCount(count: Count, rest: string): string {
    match count
    case Absent => rest
    case Static(n) => Printed(n) + rest
    case Dynamic(id) => "{" + WriteId(id, "}" + rest)
  }

  predicate CanWriteCount(count: Count) {
    (count.Static? ==> count.n <= 0x7fff_ffff) && (count.Dynamic? ==> CanWriteId(count.id))
  }

  lemma NestedParses(id: ArgId, rest: string)
    requires CanWriteId(id)
    ensures ParseNested(WriteId(id, "}" + rest)) == Ok(Dynamic(id), rest)
  {
    IdParses(id, "}" + rest);
    assert ("}" + rest)[1..] == rest;
    assert WriteId(id, "}" + rest) != "";
  }

  lemma WidthParses(count: Count, rest: string)
    requires CanWriteCount(count) && (count == Absent ==> Head(rest) != '{') && (!count.Dynamic? ==> !IsDigit(Head(rest)))
    ensures ParseWidth(WriteCount(count, rest)) == Ok(count, rest)
  {
    match count
    case Absent =>
    case Static(n) =>
      NoLeadingZero(n);
      ReadsBack(n, rest);
    case Dynamic(id) =>
      NestedParses(id, rest);
      assert ("{" + WriteId(id, "}" + rest))[1..] == WriteId(id, "}" + rest);
  }

  function WritePrecision(count: Count, rest: string): string {
    if count == Absent then rest else "." + WriteCount(count, rest)
  }

  lemma PrecisionParses(count: Count, rest: string)
    requires CanWriteCount(count) && (count == Absent ==> Head(rest) != '.') && (count.Static? ==> !IsDigit(Head(rest)))
    ensures ParsePrecision(WritePrecision(count, rest)) == Ok(count, rest)
  {
    if count != Absent {
      WidthParses(count, rest);
      assert ("." + WriteCount(count, rest))[1..] == WriteCount(count, rest);
    }
  }

  // ----- flags, sign, fill and alignment

  function WriteFlag(flag: bool, c: char, rest: string): string { if flag then [c] + rest else rest }

  lemma FlagParses(flag: bool, c: char, rest: string)
    requires c != '\0' && (!flag ==> Head(rest) != c)
    ensures ParseFlag(WriteFlag(flag, c, rest), c) == (flag, rest)
  {
    assert ([c] + rest)[1..] == rest;
  }

  function WriteSign(sign: Option<Sign>, rest: string): string {
    match sign
    case None => rest
    case Some(Plus) => "+" + rest
    case Some(Minus) => "-" + rest
    case Some(Space) => " " + rest
  }

  lemma SignParses(sign: Option<Sign>, rest: string)
    requires sign == None ==> Head(rest) !in "+- "
    ensures ParseSign(WriteSign(sign, rest)) == (sign, rest)
  {
    assert forall c :: ([c] + rest)[1..] == rest;
  }

  function WriteAlign(fill: Option<string>, align: Option<Align>, rest: string): string {
    (if fill.Some? then fill.value else "") +
    match align {
      case None => rest
      case Some(Left) => "<" + rest
      case Some(Right) => ">" + rest
      case Some(Center) => "^" + rest
      case Some(Numeric) => rest
    }
  }

  /** One character of UTF-8. */
  predicate IsCodePoint(s: string) {
    s != "" && if (s[0] as int / 0x80) % 2 == 0 then |s| == 1 else forall i :: 0 < i < |s| ==> 0x80 <= s[i] as int < 0xc0
  }

  predicate CanWriteAlign(fill: Option<string>, align: Option<Align>) {
    align != Some(Numeric) && (fill.Some? ==> align.Some? && IsCodePoint(fill.value) && fill.value[0] !in "{}")
  }

  lemma {:induction false} ContinuationsEnd(s: string, rest: string)
    requires (forall i :: 0 <= i < |s| ==> IsContinuation(s[i])) && !IsContinuation(Head(rest))
    ensures Continuations(s + rest) == |s|
  {
    if s == "" {
      assert s + rest == rest;
    } else {
      assert (s + rest)[1..] == s[1..] + rest;
      ContinuationsEnd(s[1..], rest);
    }
  }

  lemma CodePointEnds(s: string, rest: string)
    requires IsCodePoint(s) && !IsContinuation(Head(rest))
    ensures CodePointLength(s + rest) == |s|
  {
    assert (s + rest)[1..] == s[1..] + rest;
    ContinuationsEnd(s[1..], rest);
  }

  lemma FillParses(fill: string, align: Align, rest: string)
    requires CanWriteAlign(Some(fill), Some(align))
    ensures ParseAlign(WriteAlign(Some(fill), Some(align), rest)) == Ok((Some(fill), Some(align)), rest)
  {
    var s, more := WriteAlign(Some(fill), Some(align), rest), WriteAlign(None, Some(align), rest);
    assert s == fill + more && more[1..] == rest;
    CodePointEnds(fill, more);
    assert s[0] == fill[0] && s[|fill|] == more[0] && s[..|fill|] == fill && s[|fill| + 1..] == rest;
  }

  lemma AlignAlone(align: Align, rest: string)
    requires align != Numeric && Head(rest) !in "<>^"
    ensures ParseAlign(WriteAlign(None, Some(align), rest)) == Ok((None, Some(align)), rest)
  {
    var s := WriteAlign(None, Some(align), rest);
    assert s[1..] == rest && CodePointLength(s) == 1;
    assert rest != "" ==> s[1] == rest[0];
  }

  lemma AlignParses(fill: Option<string>, align: Option<Align>, rest: string)
    requires CanWriteAlign(fill, align) && WriteAlign(fill, align, rest) != ""
    requires fill == None ==> Head(rest) !in "<>^"
    requires align == None ==> rest == "" || var p := CodePointLength(rest); p < |rest| ==> rest[p] !in "<>^"
    ensures ParseAlign(WriteAlign(fill, align, rest)) == Ok((fill, align), rest)
  {
    if fill.Some? {
      FillParses(fill.value, align.value, rest);
    } else if align.Some? {
      AlignAlone(align.value, rest);
    } else {
      assert "" + rest == rest;
    }
  }

  // ----- a whole specification

  function WriteKind(kind: Option<char>, rest: string): string { if kind.Some? then [kind.value] + rest else rest }

  function FromPrecision(spec: Spec, rest: string): string { WritePrecision(spec.precision, WriteKind(spec.kind, rest)) }

  function FromWidth(spec: Spec, rest: string): string { WriteCount(spec.width, FromPrecision(spec, rest)) }

  function FromZero(spec: Spec, rest: string): string { WriteFlag(spec.zero, '0', FromWidth(spec, rest)) }

  function FromHash(spec: Spec, rest: string): string { WriteFlag(spec.hash, '#', FromZero(spec, rest)) }

  function FromSign(spec: Spec, rest: string): string { WriteSign(spec.sign, FromHash(spec, rest)) }

  function WriteSpec(spec: Spec, rest: string): string { WriteAlign(spec.fill, spec.align, FromSign(spec, rest)) }

  /** The type must not be taken for an earlier component that is missing, or for more of a number. */
  predicate CanWriteKind(spec: Spec, c: char) {
    var counted, numbered := spec.width != Absent || spec.precision != Absent, spec.hash || spec.zero;
    c != '}' &&
    (c == '.' ==> spec.precision != Absent) &&
    (IsDigit(c) ==> spec.precision.Dynamic? || (spec.precision == Absent && spec.width.Dynamic?)) &&
    (c == '{' ==> counted) &&
    (c == '#' ==> numbered || counted) &&
    (c in "+- " ==> spec.sign.Some? || numbered || counted) &&
    (c in "<>^" ==>
      spec.fill.Some? || |FromSign(spec.(kind := None), "")| >= if spec.align.Some? then 1 else 2)
  }

  /** The specifications that can be written. */
  predicate CanWriteSpec(spec: Spec) {
    CanWriteAlign(spec.fill, spec.align) && CanWriteCount(spec.width) && CanWriteCount(spec.precision) &&
    (spec.width == Static(0) ==> spec.zero) && (spec.kind.Some? ==> CanWriteKind(spec, spec.kind.value))
  }

  predicate AtEnd(rest: string) { rest == "" || rest[0] == '}' }

  /** What the numbers are followed by. */
  lemma NumberHeads(spec: Spec, rest: string)
    requires CanWriteSpec(spec) && AtEnd(rest)
    ensures spec.precision == Absent ==> Head(WriteKind(spec.kind, rest)) != '.'
    ensures spec.precision.Static? ==> !IsDigit(Head(WriteKind(spec.kind, rest)))
    ensures spec.width == Absent ==> Head(FromPrecision(spec, rest)) != '{'
    ensures !spec.width.Dynamic? ==> !IsDigit(Head(FromPrecision(spec, rest)))
  {}

  /** What the parts behind the alignment begin with. */
  lemma Heads(spec: Spec, rest: string)
    requires CanWriteSpec(spec) && AtEnd(rest)
    ensures !spec.zero ==> Head(FromWidth(spec, rest)) != '0'
    ensures !spec.hash ==> Head(FromZero(spec, rest)) != '#'
    ensures spec.sign == None ==> Head(FromHash(spec, rest)) !in "+- "
  {
    if spec.width.Static? { NoLeadingZero(spec.width.n); }
  }

  lemma PartsParse(spec: Spec, rest: string)
    requires CanWriteSpec(spec) && AtEnd(rest)
    ensures ParseSign(FromSign(spec, rest)) == (spec.sign, FromHash(spec, rest))
    ensures ParseFlag(FromHash(spec, rest), '#') == (spec.hash, FromZero(spec, rest))
    ensures ParseFlag(FromZero(spec, rest), '0') == (spec.zero, FromWidth(spec, rest))
    ensures ParseWidth(FromWidth(spec, rest)) == Ok(spec.width, FromPrecision(spec, rest))
    ensures ParsePrecision(FromPrecision(spec, rest)) == Ok(spec.precision, WriteKind(spec.kind, rest))
    ensures ParseType(WriteKind(spec.kind, rest)) == (spec.kind, rest)
  {
    NumberHeads(spec, rest);
    Heads(spec, rest);
    SignParses(spec.sign, FromHash(spec, rest));
    FlagParses(spec.hash, '#', FromZero(spec, rest));
    FlagParses(spec.zero, '0', FromWidth(spec, rest));
    WidthParses(spec.width, FromPrecision(spec, rest));
    PrecisionParses(spec.precision, WriteKind(spec.kind, rest));
    if spec.kind.Some? { assert ([spec.kind.value] + rest)[1..] == rest; }
  }

  /** Neither an alignment nor the beginning of a longer character. */
  predicate IsPlain(c: char) { c as int < 0x80 && c !in "<>^" }

  predicate AllPlain(s: string) { forall i :: 0 <= i < |s| ==> IsPlain(s[i]) }

  lemma IdSplits(id: ArgId, rest: string)
    requires CanWriteId(id)
    ensures WriteId(id, rest) == WriteId(id, "") + rest && AllPlain(WriteId(id, ""))
  {
    if id.Index? {
      PrintedIsDecimal(id.index);
      assert Printed(id.index) + "" == Printed(id.index);
    } else if id.Name? {
      assert id.name + "" == id.name;
    }
  }

  lemma CountSplits(count: Count, rest: string)
    requires CanWriteCount(count)
    ensures WriteCount(count, rest) == WriteCount(count, "") + rest && AllPlain(WriteCount(count, ""))
  {
    match count
    case Absent =>
    case Static(n) =>
      PrintedIsDecimal(n);
      assert Printed(n) + "" == Printed(n);
    case Dynamic(id) =>
      IdSplits(id, "}");
      IdSplits(id, "}" + rest);
      assert "{" + (WriteId(id, "") + ("}" + rest)) == ("{" + (WriteId(id, "") + "}")) + rest;
      assert "}" + "" == "}";
  }

  /** What stands between the alignment and the type. */
  function Middle(spec: Spec): string { FromSign(spec.(kind := None), "") }

  lemma PrecisionSplits(count: Count, rest: string)
    requires CanWriteCount(count)
    ensures WritePrecision(count, rest) == WritePrecision(count, "") + rest && AllPlain(WritePrecision(count, ""))
  {
    CountSplits(count, rest);
    Associates(".", WriteCount(count, ""), rest);
  }

  lemma FlagSplits(flag: bool, c: char, s: string, rest: string)
    requires IsPlain(c) && AllPlain(s)
    ensures WriteFlag(flag, c, s + rest) == WriteFlag(flag, c, s) + rest && AllPlain(WriteFlag(flag, c, s))
  {
    Associates([c], s, rest);
  }

  lemma SignSplits(sign: Option<Sign>, s: string, rest: string)
    requires AllPlain(s)
    ensures WriteSign(sign, s + rest) == WriteSign(sign, s) + rest && AllPlain(WriteSign(sign, s))
  {
    Associates("+", s, rest);
    Associates("-", s, rest);
    Associates(" ", s, rest);
  }

  lemma MiddleSplits(spec: Spec, rest: string)
    requires CanWriteCount(spec.width) && CanWriteCount(spec.precision)
    ensures FromSign(spec, rest) == Middle(spec) + WriteKind(spec.kind, rest) && AllPlain(Middle(spec))
  {
    var bare, last := spec.(kind := None), WriteKind(spec.kind, rest);
    PrecisionSplits(spec.precision, last);
    var precision := FromPrecision(bare, "");
    CountSplits(spec.width, precision);
    CountSplits(spec.width, precision + last);
    Associates(WriteCount(spec.width, ""), precision, last);
    FlagSplits(spec.zero, '0', FromWidth(bare, ""), last);
    FlagSplits(spec.hash, '#', FromZero(bare, ""), last);
    SignSplits(spec.sign, FromHash(bare, ""), last);
  }

  /** A stretch of plain characters and the type have no alignment in the first place, or in the second. */
  lemma NoAlign(middle: string, kind: Option<char>, rest: string, aligned: bool)
    requires AllPlain(middle) && AtEnd(rest) && (aligned || middle != "" || kind.Some?)
    requires kind.Some? && kind.value in "<>^" ==> |middle| >= if aligned then 1 else 2
    ensures var s := middle + WriteKind(kind, rest);
            Head(s) !in "<>^" &&
            (!aligned && s != "" ==> var p := CodePointLength(s); p < |s| ==> s[p] !in "<>^")
  {
    var last := WriteKind(kind, rest);
    var s := middle + last;
    if middle == "" {
      assert s == last;
      if kind.Some? { assert s[1..] == rest && (|s| > 1 ==> s[1] == rest[0]); }
    } else {
      assert s[0] == middle[0] && IsPlain(middle[0]);
      if !aligned { SecondPlain(middle, kind, rest); }
    }
  }

  lemma SecondPlain(middle: string, kind: Option<char>, rest: string)
    requires AllPlain(middle) && AtEnd(rest) && middle != ""
    requires kind.Some? && kind.value in "<>^" ==> |middle| >= 2
    ensures var s := middle + WriteKind(kind, rest); |s| > 1 ==> s[1] !in "<>^"
  {
    var s := middle + WriteKind(kind, rest);
    if |middle| > 1 {
      assert s[1] == middle[1] && IsPlain(middle[1]);
    } else if kind.Some? {
      assert s[1] == kind.value;
    } else if |s| > 1 {
      assert s[1] == rest[0];
    }
  }

  lemma NoSign(sign: Option<Sign>, rest: string)
    requires AtEnd(WriteSign(sign, rest))
    ensures sign == None && AtEnd(rest)
  {}

  lemma NoFlag(flag: bool, c: char, rest: string)
    requires AtEnd(WriteFlag(flag, c, rest)) && c != '}'
    ensures !flag && AtEnd(rest)
  {}

  lemma NoCount(count: Count, rest: string)
    ensures AtEnd(WriteCount(count, rest)) ==> count == Absent && AtEnd(rest)
    ensures AtEnd(WritePrecision(count, rest)) ==> count == Absent && AtEnd(rest)
  {
    if count.Static? { NoLeadingZero(count.n); }
  }

  lemma NoAlignment(fill: Option<string>, align: Option<Align>, rest: string)
    requires CanWriteAlign(fill, align) && AtEnd(WriteAlign(fill, align, rest))
    ensures fill == None && align == None && WriteAlign(fill, align, rest) == rest
  {
    assert "" + rest == rest;
  }

  lemma NothingWritten(spec: Spec, rest: string)
    requires CanWriteSpec(spec) && AtEnd(rest) && AtEnd(WriteSpec(spec, rest))
    ensures spec == NO_SPEC && WriteSpec(spec, rest) == rest
  {
    NoAlignment(spec.fill, spec.align, FromSign(spec, rest));
    NoSign(spec.sign, FromHash(spec, rest));
    NoFlag(spec.hash, '#', FromZero(spec, rest));
    NoFlag(spec.zero, '0', FromWidth(spec, rest));
    NoCount(spec.width, FromPrecision(spec, rest));
    NoCount(spec.precision, WriteKind(spec.kind, rest));
  }

  /** What is left to be read in front of each component, and behind them all. */
  datatype Stages = Stages(sign: string, hash: string, zero: string, width: string, precision: string, kind: string,
                           end: string)

  /** The components one after the other. */
  ghost predicate ReadInTurn(spec: Spec, s: string, at: Stages) {
    !AtEnd(s) && ParseAlign(s) == Ok((spec.fill, spec.align), at.sign) &&
    ParseSign(at.sign) == (spec.sign, at.hash) && ParseFlag(at.hash, '#') == (spec.hash, at.zero) &&
    ParseFlag(at.zero, '0') == (spec.zero, at.width) && ParseWidth(at.width) == Ok(spec.width, at.precision) &&
    ParsePrecision(at.precision) == Ok(spec.precision, at.kind) && ParseType(at.kind) == (spec.kind, at.end)
  }

  lemma ReadWhole(spec: Spec, s: string, at: Stages)
    requires ReadInTurn(spec, s, at)
    ensures ParseSpecs(s) == Ok(spec, at.end)
  {}

  lemma AlignFirst(spec: Spec, rest: string)
    requires CanWriteSpec(spec) && AtEnd(rest) && !AtEnd(WriteSpec(spec, rest))
    ensures ParseAlign(WriteSpec(spec, rest)) == Ok((spec.fill, spec.align), FromSign(spec, rest))
  {
    if spec.fill == None {
      MiddleSplits(spec, rest);
      NoAlign(Middle(spec), spec.kind, rest, spec.align.Some?);
    }
    if spec.align == None { assert "" + FromSign(spec, rest) == FromSign(spec, rest); }
    AlignParses(spec.fill, spec.align, FromSign(spec, rest));
  }

  /** Every specification that can be written is parsed back from what is written. */
  lemma SpecRoundTrip(spec: Spec, rest: string)
    requires CanWriteSpec(spec) && AtEnd(rest)
    ensures ParseSpecs(WriteSpec(spec, rest)) == Ok(spec, rest)
  {
    if AtEnd(WriteSpec(spec, rest)) {
      NothingWritten(spec, rest);
    } else {
      AlignFirst(spec, rest);
      PartsParse(spec, rest);
      ReadWhole(spec, WriteSpec(spec, rest),
                Stages(FromSign(spec, rest), FromHash(spec, rest), FromZero(spec, rest), FromWidth(spec, rest),
                       FromPrecision(spec, rest), WriteKind(spec.kind, rest), rest));
    }
  }

  // ----- only those specifications are ever parsed

  lemma {:induction false} NameParts(s: string)
    ensures forall i :: 0 <= i < NameLength(s) ==> IsNamePart(s[i])
  {
    if s != "" && IsNamePart(s[0]) {
      NameParts(s[1..]);
      assert forall i :: 0 < i < NameLength(s) ==> s[i] == s[1..][i - 1];
    }
  }

  lemma IdCanBeWritten(s: string)
    requires s != "" && ParseArgId(s).Ok?
    ensures CanWriteId(ParseArgId(s).value)
  {
    NameParts(s);
    if !EndsId(s) && !IsDigit(s[0]) { assert s[..NameLength(s)][0] == s[0]; }
  }

  lemma CountCanBeWritten(s: string)
    requires ParseWidth(s).Ok?
    ensures CanWriteCount(ParseWidth(s).value)
  {
    if Head(s) == '{' && s[1..] != "" && ParseArgId(s[1..]).Ok? { IdCanBeWritten(s[1..]); }
  }

  lemma {:induction false} ContinuationsAre(s: string)
    ensures forall i :: 0 <= i < Continuations(s) ==> IsContinuation(s[i])
  {
    if s != "" && IsContinuation(s[0]) {
      ContinuationsAre(s[1..]);
      assert forall i :: 0 < i < Continuations(s) ==> s[i] == s[1..][i - 1];
    }
  }

  lemma AlignCanBeWritten(s: string)
    requires !AtEnd(s) && ParseAlign(s).Ok?
    ensures CanWriteAlign(ParseAlign(s).value.0, ParseAlign(s).value.1)
  {
    ContinuationsAre(s[1..]);
    var p := CodePointLength(s);
    assert forall i :: 0 < i < p ==> s[..p][i] == s[1..][i - 1];
  }

  /** A number without leading zero is positive, and below ten only with one digit. */
  lemma LeadingDigit(s: string)
    requires s != "" && IsDigit(s[0]) && s[0] != '0' && ParseInt(s).Ok?
    ensures ParseInt(s).value > 0 && (ParseInt(s).value < 10 ==> ParseInt(s).rest == s[1..])
  {
    var n := Digits(s);
    var whole := s[..n];
    assert whole[..1][..0] == "" && Decimal("") == 0;
    MoreDigits(whole, 1);
    if n > 1 {
      assert whole[..2][..1] == whole[..1] && IsDigit(whole[1]);
      MoreDigits(whole, 2);
    }
  }

  function One(present: bool): nat { if present then 1 else 0 }

  lemma MiddleSize(spec: Spec)
    requires CanWriteCount(spec.width) && CanWriteCount(spec.precision)
    ensures |Middle(spec)| == One(spec.sign.Some?) + One(spec.hash) + One(spec.zero) +
                              |WriteCount(spec.width, "")| + |WritePrecision(spec.precision, "")|
  {
    CountSplits(spec.width, FromPrecision(spec.(kind := None), ""));
  }

  /** Reading the single digit of a width. */
  lemma DigitRead(spec: Spec, s: string, at: Stages)
    requires ReadInTurn(spec, s, at) && spec.width.Static? && spec.width.n < 10 && !spec.zero
    ensures at.width != "" && at.precision == at.width[1..] && at.width[0] as int < 0x80
  {
    LeadingDigit(at.width);
  }

  /** Nothing is read for what is not written, and one character for what is written with one. */
  lemma MiddleRead(spec: Spec, s: string, at: Stages)
    requires ReadInTurn(spec, s, at) && CanWriteCount(spec.width) && CanWriteCount(spec.precision)
    ensures Middle(spec) == "" ==> at.kind == at.sign
    ensures |Middle(spec)| == 1 ==> at.sign != "" && at.kind == at.sign[1..] && at.sign[0] as int < 0x80
  {
    MiddleSize(spec);
    CountSize(spec.width);
    CountSize(spec.precision);
    if |Middle(spec)| <= 1 {
      assert spec.precision == Absent && at.kind == at.precision;
      if spec.width.Static? { DigitRead(spec, s, at); }
    }
  }

  lemma CountSize(count: Count)
    ensures |WriteCount(count, "")| == 0 <==> count == Absent
    ensures |WriteCount(count, "")| == 1 ==> count.Static? && count.n < 10
    ensures |WritePrecision(count, "")| == 0 <==> count == Absent
    ensures |WritePrecision(count, "")| != 1
  {
    if count.Static? {
      NoLeadingZero(count.n);
      assert Printed(count.n) + "" == Printed(count.n);
    }
  }

  /** A type that looks like an alignment stands behind something that keeps it from being one. */
  lemma AlignKind(spec: Spec, s: string, at: Stages)
    requires ReadInTurn(spec, s, at) && CanWriteCount(spec.width) && CanWriteCount(spec.precision)
    requires spec.kind.Some? && spec.kind.value in "<>^" && spec.fill == None
    ensures |Middle(spec)| >= if spec.align.Some? then 1 else 2
  {
    MiddleRead(spec, s, at);
    assert at.kind[0] == spec.kind.value;
    if spec.align.Some? {
      assert at.sign == s[1..];
    } else {
      assert at.sign == s;
    }
  }

  /** A digit as type does not stand behind a number, or where one is read. */
  lemma DigitKind(spec: Spec, s: string, at: Stages)
    requires ReadInTurn(spec, s, at) && spec.kind.Some? && IsDigit(spec.kind.value)
    ensures spec.precision.Dynamic? || (spec.precision == Absent && spec.width.Dynamic?)
  {
    assert Head(at.kind) == spec.kind.value;
    if spec.precision == Absent {
      CountEnds(at.width);
    } else {
      CountEnds(at.precision[1..]);
    }
  }

  lemma CountEnds(s: string)
    requires ParseWidth(s).Ok?
    ensures !ParseWidth(s).value.Dynamic? ==> !IsDigit(Head(ParseWidth(s).rest))
  {}

  lemma KindCanBeWritten(spec: Spec, s: string, at: Stages)
    requires ReadInTurn(spec, s, at) && spec.kind.Some?
    requires spec.kind.value in "<>^" && spec.fill == None ==> |Middle(spec)| >= if spec.align.Some? then 1 else 2
    ensures CanWriteKind(spec, spec.kind.value)
  {
    var c := spec.kind.value;
    assert Head(at.kind) == c;
    if spec.precision == Absent {
      assert Head(at.precision) == c;
      if spec.width == Absent { assert Head(at.width) == c; }
    }
    if IsDigit(c) { DigitKind(spec, s, at); }
  }

  /** Whatever is parsed up to its end is a specification that can be written. */
  lemma ParsedCanBeWritten(s: string)
    requires ParseSpecs(s).Ok? && AtEnd(ParseSpecs(s).rest)
    ensures CanWriteSpec(ParseSpecs(s).value)
  {
    if !AtEnd(s) {
      var spec, s1 := ParseSpecs(s).value, ParseAlign(s).rest;
      var s2 := ParseSign(s1).1;
      var s3 := ParseFlag(s2, '#').1;
      var s4 := ParseFlag(s3, '0').1;
      var s5 := ParseWidth(s4).rest;
      var s6 := ParsePrecision(s5).rest;
      var at := Stages(s1, s2, s3, s4, s5, s6, ParseSpecs(s).rest);
      assert ReadInTurn(spec, s, at);
      AlignCanBeWritten(s);
      CountCanBeWritten(s4);
      if Head(s5) == '.' { CountCanBeWritten(s5[1..]); }
      if spec.kind.Some? {
        if spec.kind.value in "<>^" && spec.fill == None { AlignKind(spec, s, at); }
        KindCanBeWritten(spec, s, at);
      }
      if spec.width == Static(0) && !spec.zero { LeadingDigit(s4); }
    }
  }

  /** The specifications that can be written are exactly those that parsing yields. */
  lemma WritableSpecs(spec: Spec, rest: string)
    requires AtEnd(rest)
    ensures CanWriteSpec(spec) <==> exists s :: ParseSpecs(s) == Ok(spec, rest)
  {
    if CanWriteSpec(spec) {
      SpecRoundTrip(spec, rest);
    }
    forall s | ParseSpecs(s) == Ok(spec, rest) ensures CanWriteSpec(spec) {
      ParsedCanBeWritten(s);
    }
  }

  // ----- replacement fields

  function WriteField(field: Field, rest: string): string {
    "{" + WriteId(field.id, if field.spec.None? then "}" + rest else ":" + WriteSpec(field.spec.value, "}" + rest))
  }

  predicate CanWriteField(field: Field) { CanWriteId(field.id) && (field.spec.Some? ==> CanWriteSpec(field.spec.value)) }

  /** An id is not taken for a doubled brace, or for the end of an empty field. */
  lemma IdFirst(id: ArgId, rest: string)
    requires CanWriteId(id) && EndsId(rest)
    ensures var s := WriteId(id, rest); s != "" && s[0] != '{' && (s[0] == '}' ==> id == Auto && s == rest)
  {
    if id.Index? { NoLeadingZero(id.index); }
    if id.Name? { assert WriteId(id, rest)[0] == id.name[0]; }
  }

  lemma FieldRoundTrip(field: Field, rest: string)
    requires CanWriteField(field)
    ensures ParseField(WriteField(field, rest)) == Ok(Replacement(field), rest)
  {
    var close := "}" + rest;
    assert close[1..] == rest;
    var tail := if field.spec.None? then close else ":" + WriteSpec(field.spec.value, close);
    var inner := WriteId(field.id, tail);
    assert WriteField(field, rest)[1..] == inner;
    IdParses(field.id, tail);
    IdFirst(field.id, tail);
    if field.spec.Some? {
      SpecRoundTrip(field.spec.value, close);
      assert tail[1..] == WriteSpec(field.spec.value, close);
    }
  }

  // ----- whole format strings

  /** A format string: texts with their braces doubled, and fields. */
  function WriteItems(items: seq<Item>): string {
    if items == [] then ""
    else
      match items[0]
      case Text(text) => DoubleBraces(text) + WriteItems(items[1..])
      case Replacement(field) => WriteField(field, WriteItems(items[1..]))
      case Error => WriteItems(items[1..])
  }

  predicate CanWriteItem(item: Item) {
    match item
    case Text(_) => true
    case Replacement(field) => CanWriteField(field)
    case Error => false
  }

  predicate CanWrite(items: seq<Item>) { forall i :: 0 <= i < |items| ==> CanWriteItem(items[i]) }

  /** A stream without regard to how its texts are cut. */
  datatype Unit = Char(c: char) | Slot(field: Field) | Broken

  function Chars(text: string): (r: seq<Unit>)
    ensures |r| == |text| && forall i :: 0 <= i < |r| ==> r[i] == Char(text[i])
  {
    seq(|text|, i requires 0 <= i < |text| => Char(text[i]))
  }

  function ItemUnits(item: Item): seq<Unit> {
    match item
    case Text(text) => Chars(text)
    case Replacement(field) => [Slot(field)]
    case Error => [Broken]
  }

  function Units(items: seq<Item>): seq<Unit> {
    if items == [] then [] else ItemUnits(items[0]) + Units(items[1..])
  }

  lemma CharsConcat(a: string, b: string)
    ensures Chars(a + b) == Chars(a) + Chars(b)
  {}

  lemma NoChars(units: seq<Unit>)
    ensures Chars("") + units == units
  {}

  lemma UnitsCons(item: Item, items: seq<Item>)
    ensures Units([item] + items) == ItemUnits(item) + Units(items)
  {
    assert ([item] + items)[1..] == items;
  }

  /** The pending text and what is parsed behind it, if that is what it should be. */
  ghost predicate Yields(text: string, s: string, units: seq<Unit>) { Units(Parse(text, s)) == Chars(text) + units }

  lemma YieldsField(text: string, field: Field, rest: string, units: seq<Unit>)
    requires CanWriteField(field) && Yields("", rest, units)
    ensures Yields(text, WriteField(field, rest), [Slot(field)] + units)
  {
    var s, item := WriteField(field, rest), Replacement(field);
    FieldRoundTrip(field, rest);
    ParseOpen(text, s);
    UnitsCons(item, Parse("", rest));
    UnitsCons(Text(text), [item] + Parse("", rest));
    NoChars(units);
  }

  lemma YieldsOpen(text: string, rest: string, units: seq<Unit>)
    requires Yields("", rest, units)
    ensures Yields(text, "{{" + rest, [Char('{')] + units)
  {
    var s := "{{" + rest;
    assert s[1..][0] == '{' && s[1..][1..] == rest;
    ParseOpen(text, s);
    UnitsCons(Text("{"), Parse("", rest));
    UnitsCons(Text(text), [Text("{")] + Parse("", rest));
    NoChars(units);
    assert Chars("{") == [Char('{')];
  }

  lemma YieldsClose(text: string, rest: string, units: seq<Unit>)
    requires Yields("", rest, units)
    ensures Yields(text, "}}" + rest, [Char('}')] + units)
  {
    var s := "}}" + rest;
    assert s[1..][0] == '}' && s[2..] == rest;
    AtClose(text, s);
    UnitsCons(Text(text + "}"), Parse("", rest));
    CharsConcat(text, "}");
    NoChars(units);
    assert Chars("}") == [Char('}')];
    Associates(Chars(text), [Char('}')], units);
  }

  lemma YieldsOther(text: string, c: char, rest: string, units: seq<Unit>)
    requires c != '{' && c != '}' && Yields(text + [c], rest, units)
    ensures Yields(text, [c] + rest, [Char(c)] + units)
  {
    assert ([c] + rest)[1..] == rest;
    CharsConcat(text, [c]);
    assert Chars([c]) == [Char(c)];
    Associates(Chars(text), [Char(c)], units);
  }

  lemma DoubleFirst(t: string, rest: string)
    requires t != ""
    ensures DoubleBraces(t) + rest ==
            (if t[0] == '{' then "{{" else if t[0] == '}' then "}}" else [t[0]]) + (DoubleBraces(t[1..]) + rest)
  {
    var first := if t[0] == '{' then "{{" else if t[0] == '}' then "}}" else [t[0]];
    assert DoubleBraces(t) == first + DoubleBraces(t[1..]);
    Associates(first, DoubleBraces(t[1..]), rest);
  }

  lemma CharsFirst(t: string, units: seq<Unit>)
    requires t != ""
    ensures Chars(t) + units == [Char(t[0])] + (Chars(t[1..]) + units)
  {}

  /** The beginning of the stream is a text, of which t is still to be read. */
  lemma {:induction false} YieldsText(text: string, t: string, items: seq<Item>)
    requires CanWrite(items)
    ensures Yields(text, DoubleBraces(t) + WriteItems(items), Chars(t) + Units(items))
    decreases |items|, |t|, 1
  {
    var rest := WriteItems(items);
    if t == "" {
      YieldsItems(text, items);
      NoChars(Units(items));
      assert DoubleBraces("") + rest == rest;
    } else {
      var c, more, units := t[0], DoubleBraces(t[1..]) + rest, Chars(t[1..]) + Units(items);
      DoubleFirst(t, rest);
      CharsFirst(t, Units(items));
      if c == '{' {
        YieldsText("", t[1..], items);
        YieldsOpen(text, more, units);
      } else if c == '}' {
        YieldsText("", t[1..], items);
        YieldsClose(text, more, units);
      } else {
        YieldsText(text + [c], t[1..], items);
        YieldsOther(text, c, more, units);
      }
    }
  }

  lemma {:induction false} YieldsItems(text: string, items: seq<Item>)
    requires CanWrite(items)
    ensures Yields(text, WriteItems(items), Units(items))
    decreases |items|, 0, 0
  {
    if items == [] {
      UnitsCons(Text(text), []);
      assert [Text(text)] + [] == [Text(text)];
    } else {
      var tail := items[1..];
      assert CanWriteItem(items[0]) && CanWrite(tail);
      match items[0]
      case Text(t) =>
        YieldsText(text, t, tail);
      case Replacement(field) =>
        YieldsItems("", tail);
        YieldsField(text, field, WriteItems(tail), Units(tail));
    }
  }

  /** Parsing a written format string yields its texts and fields, and no error. */
  lemma FormatStringRoundTrip(items: seq<Item>)
    requires CanWrite(items)
    ensures Units(Parse("", WriteItems(items))) == Units(items)
  {
    YieldsItems("", items);
    NoChars(Units(items));
  }
}
