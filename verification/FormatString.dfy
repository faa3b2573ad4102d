/**
 The format-string parser: argument ids, format specifiers, replacement fields, and the two
 ways the whole string is scanned. A reported error ends the parse.
 */
module FormatString {
  import opened Sequences
  import opened Options
  import opened Rounding

  datatype Parsed<T> = Ok(value: T, rest: string) | Bad {
    predicate IsFailure() { Bad? }
    function PropagateFailure<U>(): Parsed<U>
      requires Bad?
    {
      Bad
    }
    function Extract(): (T, string)
      requires Ok?
    {
      (value, rest)
    }
  }

  datatype ArgId = Auto | Index(index: nat) | Name(name: string)

  datatype Align = Left | Right | Center | Numeric

  datatype Sign = Plus | Minus | Space

  datatype Count = Absent | Static(n: nat) | Dynamic(id: ArgId)

  /** The components of a format specification, in the order in which they are written. */
  datatype Spec = Spec(
    fill: Option<string>, align: Option<Align>, sign: Option<Sign>, hash: bool, zero: bool,
    width: Count, precision: Count, kind: Option<char>)

  datatype Field = Field(id: ArgId, spec: Option<Spec>)

  const NO_SPEC: Spec := Spec(None, None, None, false, false, Absent, Absent, None)

  const INT_MAX: nat := 0x7fff_ffff

  predicate IsNameStart(c: char) { 'a' <= c <= 'z' || 'A' <= c <= 'Z' || c == '_' }

  function Head(s: string): char { if s == "" then '\0' else s[0] }

  // ----- integers

  function Digits(s: string): (n: nat)
    ensures n <= |s| && AllDigits(s[..n])
    ensures n < |s| ==> !IsDigit(s[n])
  {
    if s != "" && IsDigit(s[0]) then
      var n := Digits(s[1..]);
      assert s[..n + 1] == [s[0]] + s[1..][..n];
      n + 1
    else 0
  }

  /** The number spelled by the digits in front, unless it exceeds the range of int. */
  function ParseInt(s: string): (r: Parsed<nat>)
    ensures r.Ok? && s != "" && IsDigit(s[0]) ==> |r.rest| < |s|
    ensures r.Ok? ==> |r.rest| <= |s| && r.value <= INT_MAX
  {
    var n := Digits(s);
    var value := Decimal(s[..n]);
    DecimalRange(s[..n]);
    if value > INT_MAX then Bad else Ok(value, s[n..])
  }

  lemma {:induction false} MoreDigits(s: string, i: nat)
    requires i <= |s| && AllDigits(s)
    ensures Decimal(s) >= Decimal(s[..i]) >= 0
  {
    if i < |s| {
      var front := s[..|s| - 1];
      MoreDigits(front, i);
      DecimalRange(front);
      assert front[..i] == s[..i];
    } else {
      assert s[..i] == s;
      DecimalRange(s);
    }
  }

  const UINT: nat := 0x1_0000_0000

  /** How many digits are read: none behind a value that cannot be multiplied any more. */
  function Read(s: string, value: nat): (n: nat)
    ensures n <= |s|
  {
    if s == "" || !IsDigit(s[0]) || value > INT_MAX / 10 then 0
    else 1 + Read(s[1..], value * 10 + CharValue(s[0]))
  }

  /**
   The loop over the digits, in 32-bit unsigned arithmetic: it stops before a multiplication
   could wrap around, and reports an error exactly if the number exceeds INT_MAX. `begin` is
   where it stops in either case.
   */
  method ParseNonnegativeInt(s: string) returns (r: Parsed<nat>, begin: nat)
    requires s != "" && IsDigit(s[0])
    ensures r == ParseInt(s) && begin == Read(s, 0)
  {
    ghost var n := Digits(s);
    var value: nat := 0;
    begin := 0;
    ReadStart(s);
    var big := INT_MAX / 10;
    var more := true;
    while more
      invariant 0 <= begin <= n && Spelled(s, n, begin, value, more)
      decreases more, n - begin
    {
      if value > big {
        StepStops(s, n, begin, value);
        value := INT_MAX + 1;
        more := false;
      } else {
        StepOn(s, n, begin, value, value * 10 + CharValue(s[begin]));
        WordIs(value * 10 + CharValue(s[begin]));
        value := (value * 10 + CharValue(s[begin])) % UINT;
        begin := begin + 1;
        more := begin < |s| && IsDigit(s[begin]);
      }
    }
    r := if value > INT_MAX then Bad else Ok(value, s[begin..]);
  }

  /** What is read, and its value; that may be any value above the limit if not all is read. */
  ghost predicate Spelled(s: string, n: nat, begin: nat, value: nat, more: bool) {
    if more then StillReading(s, n, begin, value) else DoneReading(s, n, begin, value)
  }

  ghost predicate StillReading(s: string, n: nat, begin: nat, value: nat) {
    begin < n <= |s| && value == Decimal(s[..begin]) <= INT_MAX / 10 * 10 + 9 && Read(s, 0) == begin + Read(s[begin..], value)
  }

  ghost predicate DoneReading(s: string, n: nat, begin: nat, value: nat) {
    begin <= n <= |s| && Read(s, 0) == begin &&
    ((begin == n && value == Decimal(s[..n])) || (value > INT_MAX && Decimal(s[..n]) > INT_MAX))
  }

  lemma ReadStart(s: string)
    requires s != "" && IsDigit(s[0])
    ensures StillReading(s, Digits(s), 0, 0)
  {
    assert s[0..] == s && s[..0] == "";
  }

  /** The limit is passed: reading stops, and the number is too big. */
  lemma StepStops(s: string, n: nat, begin: nat, value: nat)
    requires n == Digits(s) && StillReading(s, n, begin, value) && value > INT_MAX / 10
    ensures DoneReading(s, n, begin, INT_MAX + 1)
  {
    AtLast(s, begin);
    ReadNone(s, begin, value);
    TooBig(s, begin, n);
  }

  /** One more digit. */
  lemma StepOn(s: string, n: nat, begin: nat, value: nat, next: int)
    requires n == Digits(s) && StillReading(s, n, begin, value) && value <= INT_MAX / 10
    requires next == value * 10 + CharValue(s[begin])
    ensures 0 <= next < UINT && Spelled(s, n, begin + 1, next, begin + 1 < |s| && IsDigit(s[begin + 1]))
  {
    AtLast(s, begin);
    AtLast(s, begin + 1);
    NextDigit(s, begin, n, next);
    ReadOne(s, begin, value, next);
    if begin + 1 == n { ReadNone(s, n, next); }
  }

  lemma ReadOne(s: string, begin: nat, value: nat, next: nat)
    requires begin < |s| && IsDigit(s[begin]) && value <= INT_MAX / 10 && next == value * 10 + CharValue(s[begin])
    ensures Read(s[begin..], value) == 1 + Read(s[begin + 1..], next)
  {
    assert s[begin..][0] == s[begin] && s[begin..][1..] == s[begin + 1..];
  }

  /** Nothing is read behind the digits, or behind too large a value. */
  lemma ReadNone(s: string, begin: nat, value: nat)
    requires begin <= |s| && (value > INT_MAX / 10 || begin == |s| || !IsDigit(s[begin]))
    ensures Read(s[begin..], value) == 0
  {
    if begin < |s| { assert s[begin..][0] == s[begin]; }
  }

  lemma WordIs(x: int)
    requires 0 <= x < UINT
    ensures x % UINT == x
  {}

  lemma AtLast(s: string, begin: nat)
    requires begin <= Digits(s)
    ensures begin < Digits(s) <==> begin < |s| && IsDigit(s[begin])
  {
    if begin < Digits(s) { assert IsDigit(s[..Digits(s)][begin]); }
  }

  lemma NextDigit(s: string, begin: nat, n: nat, next: int)
    requires begin < n <= |s| && AllDigits(s[..n])
    requires Decimal(s[..begin]) <= INT_MAX / 10 && next == Decimal(s[..begin]) * 10 + CharValue(s[begin])
    ensures next == Decimal(s[..begin + 1]) && 0 <= next <= INT_MAX / 10 * 10 + 9
  {
    assert s[..begin + 1][..begin] == s[..begin] && s[..n][..begin] == s[..begin];
    assert IsDigit(s[..n][begin]);
    MoreDigits(s[..n], begin);
  }

  lemma TooBig(s: string, begin: nat, n: nat)
    requires begin < n <= |s| && AllDigits(s[..n])
    requires Decimal(s[..begin]) > INT_MAX / 10
    ensures Decimal(s[..n]) > INT_MAX
  {
    assert s[..begin + 1][..begin] == s[..begin];
    assert IsDigit(s[..n][begin]);
    MoreDigits(s[..n], begin + 1);
    assert s[..n][..begin + 1] == s[..begin + 1];
  }

  /** Without an error all digits are read. */
  lemma {:induction false} ReadsAll(s: string, i: nat)
    requires ParseInt(s).Ok? && i <= Digits(s)
    ensures Decimal(s[..i]) >= 0 && Read(s[i..], Decimal(s[..i])) == Digits(s) - i
    decreases Digits(s) - i
  {
    var n := Digits(s);
    AtLast(s, i);
    if i < n {
      FrontIsSmall(s, i, n);
      ReadsAll(s, i + 1);
      assert s[..i + 1][..i] == s[..i];
      ReadOne(s, i, Decimal(s[..i]), Decimal(s[..i + 1]));
    } else {
      DecimalRange(s[..n]);
      ReadNone(s, n, Decimal(s[..n]));
    }
  }

  lemma FrontIsSmall(s: string, i: nat, n: nat)
    requires i < n <= |s| && AllDigits(s[..n]) && Decimal(s[..n]) <= INT_MAX
    ensures 0 <= Decimal(s[..i]) <= INT_MAX / 10
  {
    assert s[..n][..i] == s[..i];
    MoreDigits(s[..n], i);
    if Decimal(s[..i]) > INT_MAX / 10 { TooBig(s, i, n); }
  }

  // ----- argument ids

  function NameLength(s: string): (n: nat)
    ensures n <= |s|
  {
    if s != "" && (IsNameStart(s[0]) || IsDigit(s[0])) then 1 + NameLength(s[1..]) else 0
  }

  predicate EndsId(s: string) { s != "" && (s[0] == '}' || s[0] == ':') }

  /** Reads an argument id; with nothing in front of '}' or ':' the numbering is automatic. */
  function ParseArgId(s: string): (r: Parsed<ArgId>)
    requires s != ""
    ensures r.Ok? ==> |r.rest| <= |s| && (r.value != Auto ==> |r.rest| < |s|)
  {
    if EndsId(s) then Ok(Auto, s)
    else if IsDigit(s[0]) then
      var (n, rest) :- if s[0] == '0' then Ok(0, s[1..]) else ParseInt(s);
      if EndsId(rest) then Ok(Index(n), rest) else Bad
    else if IsNameStart(s[0]) then
      var n := NameLength(s);
      Ok(Name(s[..n]), s[n..])
    else Bad
  }

  // ----- format specifiers

  predicate IsContinuation(c: char) { 0x80 <= c as int < 0xc0 }

  function Continuations(s: string): (n: nat)
    ensures n <= |s|
  {
    if s != "" && IsContinuation(s[0]) then 1 + Continuations(s[1..]) else 0
  }

  /** The length of the first code point of a UTF-8 string. */
  function CodePointLength(s: string): (n: nat)
    requires s != ""
    ensures 0 < n <= |s|
  {
    if (s[0] as int / 0x80) % 2 == 0 then 1 else 1 + Continuations(s[1..])
  }

  function AlignOf(c: char): Option<Align> {
    if c == '<' then Some(Left) else if c == '>' then Some(Right) else if c == '^' then Some(Center) else None
  }

  /** Fill and alignment: an alignment character, with a fill in front of it if there is one. */
  function ParseAlign(s: string): (r: Parsed<(Option<string>, Option<Align>)>)
    requires s != ""
    ensures r.Ok? ==> |r.rest| <= |s|
  {
    var p := CodePointLength(s);
    if p < |s| && AlignOf(s[p]).Some? then
      if s[0] == '{' then Bad else Ok((Some(s[..p]), AlignOf(s[p])), s[p + 1..])
    else if AlignOf(s[0]).Some? then Ok((None, AlignOf(s[0])), s[1..])
    else Ok((None, None), s)
  }

  function ParseSign(s: string): (r: (Option<Sign>, string))
    ensures |r.1| <= |s|
  {
    if Head(s) == '+' then (Some(Plus), s[1..])
    else if Head(s) == '-' then (Some(Minus), s[1..])
    else if Head(s) == ' ' then (Some(Space), s[1..])
    else (None, s)
  }

  /** Skips one given character. */
  function ParseFlag(s: string, c: char): (r: (bool, string))
    requires c != '\0'
    ensures |r.1| <= |s|
  {
    if Head(s) == c then (true, s[1..]) else (false, s)
  }

  /** An argument id in braces, behind the opening one. */
  function ParseNested(s: string): (r: Parsed<Count>)
    ensures r.Ok? ==> |r.rest| < |s|
  {
    if s == "" then Bad
    else
      var (id, rest) :- ParseArgId(s);
      if Head(rest) != '}' then Bad else Ok(Dynamic(id), rest[1..])
  }

  function ParseWidth(s: string): (r: Parsed<Count>)
    ensures r.Ok? ==> |r.rest| <= |s|
  {
    if IsDigit(Head(s)) then
      var (n, rest) :- ParseInt(s);
      Ok(Static(n), rest)
    else if Head(s) == '{' then ParseNested(s[1..])
    else Ok(Absent, s)
  }

  /** A precision, if there is a dot; the dot must be followed by one. */
  function ParsePrecision(s: string): (r: Parsed<Count>)
    ensures r.Ok? ==> |r.rest| <= |s|
  {
    if Head(s) != '.' then Ok(Absent, s)
    else
      var (count, rest) :- ParseWidth(s[1..]);
      if count == Absent then Bad else Ok(count, rest)
  }

  function ParseType(s: string): (r: (Option<char>, string))
    ensures |r.1| <= |s|
  {
    if s != "" && s[0] != '}' then (Some(s[0]), s[1..]) else (None, s)
  }

  /** The whole specification, up to but not including the closing brace. */
  function ParseSpecs(s: string): (r: Parsed<Spec>)
    ensures r.Ok? ==> |r.rest| <= |s|
  {
    if s == "" || s[0] == '}' then Ok(NO_SPEC, s)
    else
      var ((fill, align), s1) :- ParseAlign(s);
      var (sign, s2) := ParseSign(s1);
      var (hash, s3) := ParseFlag(s2, '#');
      var (zero, s4) := ParseFlag(s3, '0');
      var (width, s5) :- ParseWidth(s4);
      var (precision, s6) :- ParsePrecision(s5);
      var (kind, s7) := ParseType(s6);
      Ok(Spec(fill, align, sign, hash, zero, width, precision, kind), s7)
  }

  // ----- replacement fields and the whole string

  datatype Item = Text(text: string) | Replacement(field: Field) | Error

  /** A replacement field, from its opening brace; a doubled brace is a text. */
  function ParseField(s: string): (r: Parsed<Item>)
    requires s != ""
    ensures r.Ok? ==> |r.rest| < |s|
  {
    var inner := s[1..];
    if inner == "" then Bad
    else if inner[0] == '}' then Ok(Replacement(Field(Auto, None)), inner[1..])
    else if inner[0] == '{' then Ok(Text("{"), inner[1..])
    else
      var (id, rest) :- ParseArgId(inner);
      if Head(rest) == '}' then Ok(Replacement(Field(id, None)), rest[1..])
      else if Head(rest) == ':' then
        var (spec, rest') :- ParseSpecs(rest[1..]);
        if Head(rest') == '}' then Ok(Replacement(Field(id, Some(spec))), rest'[1..]) else Bad
      else Bad
  }

  /**
   The reference parse: `text` is pending. Texts are reported up to each doubled closing
   brace, each field and the end; an error ends the stream.
   */
  function Parse(text: string, s: string): seq<Item>
    decreases |s|
  {
    if s == "" then [Text(text)]
    else if s[0] == '{' then
      match ParseField(s)
      case Bad => [Text(text), Error]
      case Ok(item, rest) => [Text(text), item] + Parse("", rest)
    else if s[0] == '}' then
      if Head(s[1..]) == '}' then [Text(text + "}")] + Parse("", s[2..]) else [Error]
    else Parse(text + [s[0]], s[1..])
  }

  // ----- the simple loop

  lemma ParseOpen(text: string, s: string)
    requires s != "" && s[0] == '{'
    ensures Parse(text, s) == [Text(text)] + AfterOpen(s)
  {}

  /** What follows the pending text at an opening brace. */
  function AfterOpen(s: string): seq<Item>
    requires s != ""
  {
    match ParseField(s)
    case Bad => [Error]
    case Ok(item, rest) => [item] + Parse("", rest)
  }

  lemma AtClose(text: string, s: string)
    requires s != "" && s[0] == '}'
    ensures Parse(text, s) ==
            if Head(s[1..]) == '}' then [Text(text + "}")] + Parse("", s[2..]) else [Error]
  {}

  /** What is reported, and what is still to be parsed behind p pending characters. */
  ghost predicate Reading(items: seq<Item>, begin: string, p: nat, all: seq<Item>) {
    p <= |begin| && items + Parse(begin[..p], begin[p..]) == all
  }

  lemma ReadOpen(items: seq<Item>, begin: string, p: nat, all: seq<Item>)
    requires Reading(items, begin, p, all) && p < |begin| && begin[p] == '{'
    ensures var field := ParseField(begin[p..]);
            if field.Bad? then items + [Text(begin[..p]), Error] == all
            else Reading(items + [Text(begin[..p]), field.value], field.rest, 0, all)
  {
    var text, s := begin[..p], begin[p..];
    ParseOpen(text, s);
    var field := ParseField(s);
    if field.Ok? {
      var more := Parse("", field.rest);
      assert field.rest[..0] == "" && field.rest[0..] == field.rest;
      assert items + ([Text(text)] + ([field.value] + more)) == (items + [Text(text), field.value]) + more;
    } else {
      assert [Text(text)] + [Error] == [Text(text), Error];
    }
  }

  lemma ReadClose(items: seq<Item>, begin: string, p: nat, all: seq<Item>)
    requires Reading(items, begin, p, all) && p < |begin| && begin[p] == '}'
    ensures if p + 1 == |begin| || begin[p + 1] != '}' then items + [Error] == all
            else Reading(items + [Text(begin[..p + 1])], begin[p + 2..], 0, all)
  {
    var s := begin[p..];
    AtClose(begin[..p], s);
    if p + 1 < |begin| && begin[p + 1] == '}' {
      var rest := begin[p + 2..];
      assert s[2..] == rest && begin[..p] + "}" == begin[..p + 1];
      assert rest[..0] == "" && rest[0..] == rest;
      var x, more := [Text(begin[..p + 1])], Parse("", rest);
      Associates(items, x, more);
    }
  }

  lemma ReadOther(items: seq<Item>, begin: string, p: nat, all: seq<Item>)
    requires Reading(items, begin, p, all) && p < |begin| && begin[p] != '{' && begin[p] != '}'
    ensures Reading(items, begin, p + 1, all)
  {
    assert begin[p..][1..] == begin[p + 1..] && begin[..p] + [begin[p]] == begin[..p + 1];
  }

  lemma ReadAll(items: seq<Item>, begin: string, all: seq<Item>)
    requires Reading(items, begin, |begin|, all)
    ensures items + [Text(begin)] == all
  {
    assert begin[|begin|..] == "" && begin[..|begin|] == begin;
  }

  /**
   Short strings: one pass over the characters. `begin` is what is not yet reported, `p` the
   number of its characters already read.
   */
  method ParseShort(s: string) returns (items: seq<Item>)
    ensures items == Parse("", s)
  {
    items := [];
    var begin, p := s, 0;
    ghost var all := Parse("", s);
    assert begin[..0] == "" && begin[0..] == s;
    while p != |begin|
      invariant Reading(items, begin, p, all)
      decreases |begin| - p
    {
      if begin[p] == '{' {
        ReadOpen(items, begin, p, all);
        var field := ParseField(begin[p..]);
        if field.Bad? { return items + [Text(begin[..p]), Error]; }
        items := items + [Text(begin[..p]), field.value];
        begin, p := field.rest, 0;
      } else if begin[p] == '}' {
        ReadClose(items, begin, p, all);
        if p + 1 == |begin| || begin[p + 1] != '}' { return items + [Error]; }
        items := items + [Text(begin[..p + 1])];
        begin, p := begin[p + 2..], 0;
      } else {
        ReadOther(items, begin, p, all);
        p := p + 1;
      }
    }
    ReadAll(items, begin, all);
    items := items + [Text(begin)];
  }

  // ----- the two-pass path

  function Keep(item: Item): seq<Item> { if item == Text("") then [] else [item] }

  /** The events without empty texts. */
  function Nonempty(items: seq<Item>): seq<Item> {
    if items == [] then [] else Keep(items[0]) + Nonempty(items[1..])
  }

  lemma NonemptyCons(item: Item, items: seq<Item>)
    ensures Nonempty([item] + items) == Keep(item) + Nonempty(items)
  {
    assert ([item] + items)[1..] == items;
  }

  lemma {:induction false} NonemptyConcat(a: seq<Item>, b: seq<Item>)
    ensures Nonempty(a + b) == Nonempty(a) + Nonempty(b)
  {
    if a == [] {
      assert a + b == b;
    } else {
      NonemptyConcat(a[1..], b);
      assert (a + b)[1..] == a[1..] + b;
      Associates(Keep(a[0]), Nonempty(a[1..]), Nonempty(b));
    }
  }

  /** The text events of a stretch without opening braces. */
  function Texts(seg: string): seq<Item>
    decreases |seg|
  {
    var i := Find(seg, '}');
    if i == |seg| then [Text(seg)]
    else if Head(seg[i + 1..]) == '}' then [Text(seg[..i + 1])] + Texts(seg[i + 2..])
    else [Error]
  }

  ghost predicate Writing(items: seq<Item>, begin: string, all: seq<Item>) {
    items + Texts(begin) == all && Error !in items
  }

  lemma TextsStep(begin: string, p: nat)
    requires p == Find(begin, '}') < |begin|
    ensures Texts(begin) ==
            if p + 1 == |begin| || begin[p + 1] != '}' then [Error]
            else [Text(begin[..p + 1])] + Texts(begin[p + 2..])
  {
    var rest := begin[p + 1..];
    assert Head(rest) == '}' <==> p + 1 < |begin| && begin[p + 1] == '}';
  }

  lemma WriteOne(items: seq<Item>, begin: string, p: nat, all: seq<Item>)
    requires Writing(items, begin, all) && p == Find(begin, '}') < |begin|
    ensures if p + 1 == |begin| || begin[p + 1] != '}' then items + [Error] == all
            else Writing(items + [Text(begin[..p + 1])], begin[p + 2..], all)
  {
    TextsStep(begin, p);
    if p + 1 < |begin| && begin[p + 1] == '}' {
      var x, more := [Text(begin[..p + 1])], Texts(begin[p + 2..]);
      Associates(items, x, more);
    }
  }

  /** The writer of the two-pass path; false after an error. */
  method Write(seg: string) returns (items: seq<Item>, ok: bool)
    ensures Nonempty(items) == Nonempty(Texts(seg)) && (ok <==> Error !in Texts(seg))
  {
    items, ok := [], true;
    if seg == "" {
      ReportedLast("", []);
      return;
    }
    var begin := seg;
    ghost var all := Texts(seg);
    while true
      invariant Writing(items, begin, all) && ok
      decreases |begin|
    {
      var p := Find(begin, '}');
      if p == |begin| {
        items := items + [Text(begin)];
        return;
      }
      WriteOne(items, begin, p, all);
      if p + 1 == |begin| || begin[p + 1] != '}' {
        items := items + [Error];
        return items, false;
      }
      items := items + [Text(begin[..p + 1])];
      begin := begin[p + 2..];
    }
  }

  /** Characters other than braces join the pending text. */
  lemma {:induction false} Pending(text: string, plain: string, rest: string)
    requires '{' !in plain && '}' !in plain
    ensures Parse(text, plain + rest) == Parse(text + plain, rest)
    decreases |plain|
  {
    if plain == "" {
      assert plain + rest == rest && text + plain == text;
    } else {
      assert (plain + rest)[1..] == plain[1..] + rest;
      Pending(text + [plain[0]], plain[1..], rest);
      assert text + [plain[0]] + plain[1..] == text + plain;
    }
  }

  /** At a field or at the end the pending text is reported first. */
  lemma FlushFirst(text: string, rest: string)
    requires rest == "" || rest[0] == '{'
    ensures Nonempty(Parse(text, rest)) == Keep(Text(text)) + Nonempty(Parse("", rest))
  {
    if rest == "" {
      NonemptyCons(Text(text), []);
      NonemptyCons(Text(""), []);
      assert [Text(text)] + [] == [Text(text)] && [Text("")] + [] == [Text("")];
    } else {
      ParseOpen(text, rest);
      ParseOpen("", rest);
      NonemptyCons(Text(text), AfterOpen(rest));
      NonemptyCons(Text(""), AfterOpen(rest));
    }
  }

  /** What the two-pass path reports for a stretch of text and what follows it. */
  ghost function Reported(texts: seq<Item>, after: seq<Item>): seq<Item> {
    Nonempty(texts) + if Error in texts then [] else Nonempty(after)
  }

  lemma ReportedCons(text: string, texts: seq<Item>, after: seq<Item>)
    ensures Reported([Text(text)] + texts, after) == Keep(Text(text)) + Reported(texts, after)
  {
    NonemptyCons(Text(text), texts);
    assert Error in [Text(text)] + texts <==> Error in texts;
    Associates(Keep(Text(text)), Nonempty(texts), if Error in texts then [] else Nonempty(after));
  }

  lemma ReportedLast(text: string, after: seq<Item>)
    ensures Reported([Text(text)], after) == Keep(Text(text)) + Nonempty(after)
  {
    assert [Text(text)] + [] == [Text(text)] && Nonempty([]) == [];
    NonemptyCons(Text(text), []);
  }

  lemma ReportedError(after: seq<Item>)
    ensures Reported([Error], after) == Nonempty([Error]) == [Error]
  {
    assert [Error] + [] == [Error] && Nonempty([]) == [];
    NonemptyCons(Error, []);
  }

  /** A stretch of text in front of a field or of the end is what the writer reports. */
  lemma {:induction false} Stretch(seg: string, rest: string)
    requires '{' !in seg && (rest == "" || rest[0] == '{')
    ensures Nonempty(Parse("", seg + rest)) == Reported(Texts(seg), Parse("", rest))
    decreases |seg|
  {
    var i := Find(seg, '}');
    if i == |seg| {
      StretchPlain(seg, rest);
    } else {
      StretchBrace(seg, rest, i);
      TextsStep(seg, i);
      if i + 1 < |seg| && seg[i + 1] == '}' {
        Stretch(seg[i + 2..], rest);
        StretchOn(seg[..i + 1], seg[i + 2..], rest);
      } else {
        ReportedError(Parse("", rest));
      }
    }
  }

  lemma StretchOn(text: string, more: string, rest: string)
    requires Nonempty(Parse("", more + rest)) == Reported(Texts(more), Parse("", rest))
    ensures Nonempty([Text(text)] + Parse("", more + rest)) ==
            Reported([Text(text)] + Texts(more), Parse("", rest))
  {
    NonemptyCons(Text(text), Parse("", more + rest));
    ReportedCons(text, Texts(more), Parse("", rest));
  }

  lemma StretchPlain(seg: string, rest: string)
    requires '{' !in seg && '}' !in seg && (rest == "" || rest[0] == '{')
    ensures Nonempty(Parse("", seg + rest)) == Reported([Text(seg)], Parse("", rest))
  {
    Pending("", seg, rest);
    assert "" + seg == seg;
    FlushFirst(seg, rest);
    ReportedLast(seg, Parse("", rest));
  }

  lemma SplitAt(seg: string, rest: string, i: nat)
    requires i < |seg|
    ensures seg + rest == seg[..i] + (seg[i..] + rest)
    ensures (seg[i..] + rest)[1..] == seg[i + 1..] + rest
    ensures i + 1 < |seg| ==> (seg[i..] + rest)[2..] == seg[i + 2..] + rest
    ensures seg[..i] + [seg[i]] == seg[..i + 1]
  {}

  /** At the first closing brace of a stretch. */
  lemma StretchBrace(seg: string, rest: string, i: nat)
    requires '{' !in seg && i == Find(seg, '}') < |seg| && (rest == "" || rest[0] == '{')
    ensures Parse("", seg + rest) ==
            if i + 1 == |seg| || seg[i + 1] != '}' then [Error]
            else [Text(seg[..i + 1])] + Parse("", seg[i + 2..] + rest)
  {
    var plain, tail := seg[..i], seg[i..] + rest;
    SplitAt(seg, rest, i);
    assert "" + plain == plain;
    Pending("", plain, tail);
    AtClose(plain, tail);
    assert Head(tail[1..]) == '}' <==> i + 1 < |seg| && seg[i + 1] == '}';
  }

  /** At a field there is no text in front to report. */
  lemma AtField(s: string)
    requires s != "" && s[0] == '{'
    ensures var field := ParseField(s);
            Nonempty(Parse("", s)) ==
            if field.Bad? then [Error] else Nonempty([field.value]) + Nonempty(Parse("", field.rest))
  {
    ParseOpen("", s);
    NonemptyCons(Text(""), AfterOpen(s));
    var field := ParseField(s);
    if field.Bad? {
      ReportedError([]);
    } else {
      NonemptyConcat([field.value], Parse("", field.rest));
    }
  }

  lemma AtEnd()
    ensures Nonempty(Parse("", "")) == []
  {
    ReportedLast("", []);
  }

  /** What is reported and what is still to be parsed make up the whole stream. */
  ghost predicate Sofar(items: seq<Item>, begin: string, all: seq<Item>) {
    Nonempty(items) + Nonempty(Parse("", begin)) == all
  }

  lemma Onward(items: seq<Item>, begin: string, more: seq<Item>, after: seq<Item>, all: seq<Item>)
    requires Sofar(items, begin, all)
    requires Nonempty(Parse("", begin)) == Nonempty(more) + after
    ensures Nonempty(items + more) + after == all
  {
    NonemptyConcat(items, more);
    Associates(Nonempty(items), Nonempty(more), after);
  }

  lemma StretchAt(begin: string, p: nat)
    requires p == Find(begin, '{')
    ensures Nonempty(Parse("", begin)) == Reported(Texts(begin[..p]), Parse("", begin[p..]))
  {
    FindSplits(begin, '{');
    Stretch(begin[..p], begin[p..]);
  }

  lemma WriteStep(items: seq<Item>, begin: string, p: nat, texts: seq<Item>, all: seq<Item>)
    requires Sofar(items, begin, all) && p == Find(begin, '{')
    requires Nonempty(texts) == Nonempty(Texts(begin[..p]))
    ensures Error in Texts(begin[..p]) ==> Nonempty(items + texts) == all
    ensures Error !in Texts(begin[..p]) ==> Sofar(items + texts, begin[p..], all)
  {
    StretchAt(begin, p);
    if Error in Texts(begin[..p]) {
      Onward(items, begin, texts, [], all);
    } else {
      Onward(items, begin, texts, Nonempty(Parse("", begin[p..])), all);
    }
  }

  lemma FieldStep(items: seq<Item>, begin: string, all: seq<Item>)
    requires Sofar(items, begin, all) && begin != "" && begin[0] == '{'
    ensures var field := ParseField(begin);
            if field.Bad? then Nonempty(items + [Error]) == all
            else Sofar(items + [field.value], field.rest, all)
  {
    AtField(begin);
    var field := ParseField(begin);
    if field.Bad? {
      ReportedError([]);
      Onward(items, begin, [Error], [], all);
    } else {
      Onward(items, begin, [field.value], Nonempty(Parse("", field.rest)), all);
    }
  }

  /** Long strings: find the next field, write the text before it, and parse the field. */
  method ParseLong(s: string) returns (items: seq<Item>)
    ensures Nonempty(items) == Nonempty(Parse("", s))
  {
    items := [];
    var begin := s;
    ghost var all := Nonempty(Parse("", s));
    AtEnd();
    while begin != ""
      invariant Sofar(items, begin, all)
      decreases |begin|
    {
      var p := Find(begin, '{');
      var texts, ok := Write(begin[..p]);
      WriteStep(items, begin, p, texts, all);
      items := items + texts;
      if !ok || p == |begin| { return; }
      begin := begin[p..];
      FieldStep(items, begin, all);
      var field := ParseField(begin);
      if field.Bad? { return items + [Error]; }
      items, begin := items + [field.value], field.rest;
    }
  }

  /** The parser picks the path by the length of the string; the events are the same. */
  method ParseFormatString(s: string) returns (items: seq<Item>)
    ensures Nonempty(items) == Nonempty(Parse("", s))
  {
    if |s| < 32 {
      items := ParseShort(s);
    } else {
      items := ParseLong(s);
    }
  }

  // ----- doubled braces

  function DoubleBraces(s: string): string {
    if s == "" then ""
    else (if s[0] == '{' then "{{" else if s[0] == '}' then "}}" else [s[0]]) + DoubleBraces(s[1..])
  }

  ghost predicate AllTexts(items: seq<Item>) { forall i :: 0 <= i < |items| ==> items[i].Text? }

  ghost function Concat(items: seq<Item>): string {
    if items == [] then "" else (if items[0].Text? then items[0].text else "") + Concat(items[1..])
  }

  ghost predicate Spells(items: seq<Item>, t: string) { AllTexts(items) && Concat(items) == t }

  lemma SpellsCons(text: string, items: seq<Item>, t: string)
    requires Spells(items, t)
    ensures Spells([Text(text)] + items, text + t)
  {
    assert ([Text(text)] + items)[1..] == items;
  }

  lemma DoubledOpen(text: string, rest: string, t: string)
    requires Spells(Parse("", rest), t)
    ensures Spells(Parse(text, "{{" + rest), text + ("{" + t))
  {
    var d, more := "{{" + rest, Parse("", rest);
    assert d[1..][0] == '{' && d[1..][1..] == rest;
    ParseOpen(text, d);
    assert AfterOpen(d) == [Text("{")] + more;
    SpellsCons("{", more, t);
    SpellsCons(text, [Text("{")] + more, "{" + t);
  }

  lemma DoubledClose(text: string, rest: string, t: string)
    requires Spells(Parse("", rest), t)
    ensures Spells(Parse(text, "}}" + rest), text + ("}" + t))
  {
    var d, more := "}}" + rest, Parse("", rest);
    assert d[1..][0] == '}' && d[2..] == rest;
    AtClose(text, d);
    SpellsCons(text + "}", more, t);
    Associates(text, "}", t);
  }

  lemma DoubledOther(text: string, c: char, rest: string, t: string)
    requires c != '{' && c != '}' && Spells(Parse(text + [c], rest), (text + [c]) + t)
    ensures Spells(Parse(text, [c] + rest), text + ([c] + t))
  {
    assert ([c] + rest)[1..] == rest;
    Associates(text, [c], t);
  }

  lemma DoubledEmpty(text: string)
    ensures Spells(Parse(text, ""), text + "")
  {
    assert [Text(text)] + [] == [Text(text)];
    SpellsCons(text, [], "");
  }

  /** A string with all braces doubled parses to texts that spell the string. */
  lemma {:induction false} DoubledRoundTrip(text: string, s: string)
    ensures Spells(Parse(text, DoubleBraces(s)), text + s)
    decreases |s|
  {
    if s == "" {
      DoubledEmpty(text);
    } else {
      var c, rest := s[0], DoubleBraces(s[1..]);
      assert [c] + s[1..] == s;
      if c == '{' {
        DoubledRoundTrip("", s[1..]);
        assert "" + s[1..] == s[1..];
        DoubledOpen(text, rest, s[1..]);
      } else if c == '}' {
        DoubledRoundTrip("", s[1..]);
        assert "" + s[1..] == s[1..];
        DoubledClose(text, rest, s[1..]);
      } else {
        DoubledRoundTrip(text + [c], s[1..]);
        DoubledOther(text, c, rest, s[1..]);
      }
    }
  }
}
