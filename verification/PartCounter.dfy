/**
 Counting the parts of a format string without parsing the specifications: the counter skips
 them by matching braces, and goes on after errors. Still it finds as many parts as are
 compiled, unless a brace that is a type leads it astray.
 */
module PartCounter {
  import opened Options
  import opened Sequences
  import opened Rounding
  import opened FormatString
  import opened FormatCompile

  /** Finds the brace that closes the field, skipping nested pairs. */
  function MatchBrace(s: string, depth: nat): (rest: string)
    ensures |rest| <= |s|
    ensures rest != "" ==> rest[0] == '}'
  {
    if s == "" then ""
    else if s[0] == '{' then MatchBrace(s[1..], depth + 1)
    else if s[0] == '}' then if depth == 0 then s else MatchBrace(s[1..], depth - 1)
    else MatchBrace(s[1..], depth)
  }

  predicate IsPlain(s: string) { '{' !in s && '}' !in s }

  /** Skipping braces from s or from rest, at any depth, comes to the same end. */
  ghost predicate Skips(s: string, rest: string) {
    forall depth: nat :: MatchBrace(s, depth) == MatchBrace(rest, depth)
  }

  lemma {:induction false} SkipPlain(s: string, n: nat)
    requires n <= |s| && IsPlain(s[..n])
    ensures Skips(s, s[n..])
  {
    if n == 0 {
      assert s[0..] == s;
    } else {
      assert s[..n][0] == s[0] && s[1..][..n - 1] == s[..n][1..] && s[1..][n - 1..] == s[n..];
      SkipPlain(s[1..], n - 1);
      assert forall depth: nat :: MatchBrace(s, depth) == MatchBrace(s[1..], depth);
    }
  }

  lemma SkipOne(s: string)
    requires s != "" && s[0] != '{' && s[0] != '}'
    ensures Skips(s, s[1..])
  {
    SkipPlain(s, 1);
  }

  lemma {:induction false} NameIsPlain(s: string)
    ensures IsPlain(s[..NameLength(s)])
  {
    var n := NameLength(s);
    if n > 0 {
      NameIsPlain(s[1..]);
      assert s[..n] == [s[0]] + s[1..][..n - 1];
    }
  }

  lemma {:induction false} ContinuationsArePlain(s: string)
    ensures IsPlain(s[..Continuations(s)])
  {
    var n := Continuations(s);
    if n > 0 {
      ContinuationsArePlain(s[1..]);
      assert s[..n] == [s[0]] + s[1..][..n - 1];
    }
  }

  lemma SkipInt(s: string)
    requires ParseInt(s).Ok?
    ensures Skips(s, ParseInt(s).rest)
  {
    SkipPlain(s, Digits(s));
  }

  lemma SkipArgId(s: string)
    requires s != "" && ParseArgId(s).Ok?
    ensures Skips(s, ParseArgId(s).rest)
  {
    if EndsId(s) {
    } else if IsDigit(s[0]) {
      if s[0] == '0' { SkipOne(s); } else { SkipInt(s); }
    } else {
      NameIsPlain(s);
      SkipPlain(s, NameLength(s));
    }
  }

  /** Behind an opening brace: the nested id and its closing brace. */
  lemma SkipNested(s: string)
    requires s != "" && s[0] == '{' && ParseNested(s[1..]).Ok?
    ensures Skips(s, ParseNested(s[1..]).rest)
  {
    var inner, rest := s[1..], ParseNested(s[1..]).rest;
    SkipArgId(inner);
    var close := ParseArgId(inner).rest;
    forall depth: nat ensures MatchBrace(s, depth) == MatchBrace(rest, depth) {
      assert MatchBrace(s, depth) == MatchBrace(inner, depth + 1) == MatchBrace(close, depth + 1);
    }
  }

  lemma SkipWidth(s: string)
    requires ParseWidth(s).Ok?
    ensures Skips(s, ParseWidth(s).rest)
  {
    if IsDigit(Head(s)) { SkipInt(s); } else if Head(s) == '{' { SkipNested(s); }
  }

  lemma SkipPrecision(s: string)
    requires ParsePrecision(s).Ok?
    ensures Skips(s, ParsePrecision(s).rest)
  {
    if Head(s) == '.' {
      SkipOne(s);
      SkipWidth(s[1..]);
    }
  }

  lemma SkipAlign(s: string)
    requires s != "" && s[0] != '}' && ParseAlign(s).Ok?
    ensures Skips(s, ParseAlign(s).rest)
  {
    var p := CodePointLength(s);
    if p < |s| && AlignOf(s[p]).Some? {
      ContinuationsArePlain(s[1..]);
      assert p > 1 ==> s[1..][..p - 1] == s[1..p];
      assert s[..p + 1] == [s[0]] + s[1..p] + [s[p]];
      SkipPlain(s, p + 1);
    } else if AlignOf(s[0]).Some? {
      SkipOne(s);
    }
  }

  lemma SkipSign(s: string)
    ensures Skips(s, ParseSign(s).1)
  {
    if ParseSign(s).0.Some? { SkipOne(s); }
  }

  lemma SkipFlag(s: string, c: char)
    requires c != ' ' && c != '\0' && c != '{' && c != '}'
    ensures Skips(s, ParseFlag(s, c).1)
  {
    if Head(s) == c { SkipOne(s); }
  }

  lemma SkipType(s: string)
    requires ParseType(s).0 != Some('{')
    ensures Skips(s, ParseType(s).1)
  {
    if ParseType(s).0.Some? { SkipOne(s); }
  }

  /** Up to the type the braces of a specification match. */
  lemma SkipSpecs(s: string) returns (s6: string)
    requires s != "" && s[0] != '}' && ParseSpecs(s).Ok?
    ensures Skips(s, s6) && ParseSpecs(s).rest == ParseType(s6).1 && ParseSpecs(s).value.kind == ParseType(s6).0
  {
    var s1 := ParseAlign(s).rest;
    var s2 := ParseSign(s1).1;
    var s3 := ParseFlag(s2, '#').1;
    var s4 := ParseFlag(s3, '0').1;
    SkipAlign(s);
    SkipSign(s1);
    SkipFlag(s2, '#');
    SkipFlag(s3, '0');
    assert Skips(s, s4);
    var s5 := ParseWidth(s4).rest;
    s6 := ParsePrecision(s5).rest;
    SkipWidth(s4);
    SkipPrecision(s5);
  }

  /** Unless the type is a brace, the matching brace is where the specification ends. */
  lemma SpecsMatchBraces(s: string)
    requires ParseSpecs(s).Ok? && ParseSpecs(s).value.kind != Some('{')
    requires Head(ParseSpecs(s).rest) == '}'
    ensures MatchBrace(s, 0) == ParseSpecs(s).rest
  {
    if s != "" && s[0] != '}' {
      var s6 := SkipSpecs(s);
      SkipType(s6);
    }
  }

  /** If the type is a brace, its match is the end of the specification, and another one is looked for. */
  lemma SpecsMissBrace(s: string)
    requires ParseSpecs(s).Ok? && ParseSpecs(s).value.kind == Some('{')
    requires Head(ParseSpecs(s).rest) == '}'
    ensures MatchBrace(s, 0) == MatchBrace(ParseSpecs(s).rest[1..], 0)
  {
    var s6 := SkipSpecs(s);
    AtBraceType(s6, ParseSpecs(s).rest);
  }

  lemma AtBraceType(s: string, rest: string)
    requires ParseType(s) == (Some('{'), rest) && Head(rest) == '}'
    ensures MatchBrace(s, 0) == MatchBrace(rest[1..], 0)
  {
    assert MatchBrace(rest, 1) == MatchBrace(rest[1..], 0);
  }

  // ----- what is counted

  /** An argument id, whether it is counted, and what follows; errors are passed over. */
  function CountId(s: string): (r: (bool, string))
    requires s != ""
    ensures |r.1| <= |s|
  {
    if EndsId(s) then (true, s)
    else if IsDigit(s[0]) then
      var rest := if s[0] == '0' then s[1..] else s[Read(s, 0)..];
      (EndsId(rest), rest)
    else if IsNameStart(s[0]) then (true, s[NameLength(s)..])
    else (false, s)
  }

  /** A field, from its opening brace: what it counts for, and what follows; nothing after an error. */
  function CountField(s: string): (r: (nat, string))
    requires s != ""
    ensures |r.1| < |s|
  {
    var inner := s[1..];
    if inner == "" then (0, "")
    else if inner[0] == '}' || inner[0] == '{' then (1, inner[1..])
    else
      var (counted, rest) := CountId(inner);
      var n := if counted then 1 else 0;
      if Head(rest) == '}' then (n, rest[1..])
      else if Head(rest) == ':' then
        var close := MatchBrace(rest[1..], 0);
        (n, if close == "" then "" else close[1..])
      else (n, "")
  }

  /**
   The number of parts counted in s, with text pending or not. A lone closing brace ends the
   simple loop; the two-pass path goes on at the next field.
   */
  function PartsIn(long: bool, text: bool, s: string): nat
    decreases |s|
  {
    var pending := if text then 1 else 0;
    if s == "" then pending
    else if s[0] == '{' then
      var (n, rest) := CountField(s);
      pending + n + PartsIn(long, false, rest)
    else if s[0] == '}' then
      if Head(s[1..]) == '}' then 1 + PartsIn(long, false, s[2..])
      else if long then
        var i := Find(s, '{');
        if i == |s| then 0 else PartsIn(long, false, s[i..])
      else 0
    else PartsIn(long, true, s[1..])
  }

  predicate IsLong(s: string) { |s| >= 32 }

  /** What the counter finds in a whole string. */
  function Counted(s: string): nat { PartsIn(IsLong(s), false, s) }

  /** The texts that the writer reports of a stretch without opening braces. */
  function Written(text: bool, seg: string): nat
    decreases |seg|
  {
    if seg == "" then if text then 1 else 0
    else if seg[0] == '}' then if Head(seg[1..]) == '}' then 1 + Written(false, seg[2..]) else 0
    else Written(true, seg[1..])
  }

  lemma {:induction false} WrittenAt(text: bool, seg: string)
    ensures var i := Find(seg, '}');
            Written(text, seg) ==
            if i == |seg| then if text || seg != "" then 1 else 0
            else if i + 1 < |seg| && seg[i + 1] == '}' then 1 + Written(false, seg[i + 2..])
            else 0
    decreases |seg|
  {
    if seg != "" && seg[0] != '}' {
      WrittenAt(true, seg[1..]);
      var i := Find(seg, '}');
      if i + 1 < |seg| && seg[i + 1] == '}' {
        assert seg[1..][i] == seg[i + 1] && seg[1..][i + 1..] == seg[i + 2..];
      }
    }
  }

  /** On the two-pass path a stretch counts for what is written of it, even with an error in it. */
  lemma {:induction false} CountStretch(text: bool, seg: string, rest: string)
    requires '{' !in seg && (rest == "" || rest[0] == '{')
    ensures PartsIn(true, text, seg + rest) == Written(text, seg) + PartsIn(true, false, rest)
    decreases |seg|
  {
    if seg == "" {
      assert seg + rest == rest;
    } else {
      Drops(seg, rest, 1);
      if seg[0] != '}' {
        CountStretch(true, seg[1..], rest);
      } else if Head(seg[1..]) == '}' {
        Drops(seg, rest, 2);
        CountStretch(false, seg[2..], rest);
      } else {
        FindAfter(seg, rest);
      }
    }
  }

  lemma FindAfter(seg: string, rest: string)
    requires '{' !in seg && (rest == "" || rest[0] == '{')
    ensures Find(seg + rest, '{') == |seg| && (seg + rest)[|seg|..] == rest
  {
    assert (seg + rest)[..|seg|] == seg;
    FindIs(seg + rest, '{', |seg|);
  }

  /** The counter and its handlers. */
  class Counter {
    var numParts: nat

    constructor ()
      ensures numParts == 0
    {
      numParts := 0;
    }

    method OnText(text: string)
      modifies this
      ensures numParts == old(numParts) + if text == "" then 0 else 1
    {
      if text != "" {
        numParts := numParts + 1;
      }
    }

    method OnArgId()
      modifies this
      ensures numParts == old(numParts) + 1
    {
      numParts := numParts + 1;
    }

    method OnFormatSpecs(s: string) returns (begin: string)
      ensures begin == MatchBrace(s, 0)
    {
      begin := s;
      var braces: nat := 0;
      while begin != ""
        invariant MatchBrace(begin, braces) == MatchBrace(s, 0)
        decreases |begin|
      {
        if begin[0] == '{' {
          braces := braces + 1;
        } else if begin[0] == '}' {
          if braces == 0 { break; }
          braces := braces - 1;
        }
        begin := begin[1..];
      }
    }

    method ParseArgId(s: string) returns (rest: string)
      requires s != ""
      modifies this
      ensures rest == CountId(s).1
      ensures numParts == old(numParts) + if CountId(s).0 then 1 else 0
    {
      rest := s;
      if s[0] == '}' || s[0] == ':' {
        OnArgId();
      } else if IsDigit(s[0]) {
        if s[0] != '0' {
          var _, n := ParseNonnegativeInt(s);
          rest := s[n..];
        } else {
          rest := s[1..];
        }
        if rest != "" && (rest[0] == '}' || rest[0] == ':') {
          OnArgId();
        }
      } else if IsNameStart(s[0]) {
        rest := s[NameLength(s)..];
        OnArgId();
      }
    }

    method ParseReplacementField(s: string) returns (rest: string)
      requires s != ""
      modifies this
      ensures rest == CountField(s).1 && numParts == old(numParts) + CountField(s).0
    {
      var begin := s[1..];
      if begin == "" { return ""; }
      if begin[0] == '}' {
        OnArgId();
      } else if begin[0] == '{' {
        OnText(begin[..1]);
      } else {
        begin := ParseArgId(begin);
        if begin == "" { return ""; }
        if begin[0] == ':' {
          begin := OnFormatSpecs(begin[1..]);
          if begin == "" || begin[0] != '}' { return ""; }
        } else if begin[0] != '}' {
          return "";
        }
      }
      rest := begin[1..];
    }

    /** The simple loop: an unmatched brace ends it. */
    method CountShort(s: string)
      modifies this
      ensures numParts == old(numParts) + PartsIn(false, false, s)
    {
      var begin, p := s, 0;
      ghost var total := numParts + PartsIn(false, false, s);
      assert s[0..] == s;
      while p != |begin|
        invariant p <= |begin| && numParts + PartsIn(false, p > 0, begin[p..]) == total
        decreases |begin| - p
      {
        ghost var s := begin[p..];
        assert s[0] == begin[p] && s[1..] == begin[p + 1..];
        if begin[p] == '{' {
          OnText(begin[..p]);
          begin := ParseReplacementField(begin[p..]);
          p := 0;
          assert begin[0..] == begin;
        } else if begin[p] == '}' {
          if p + 1 == |begin| || begin[p + 1] != '}' { return; }
          assert s[2..] == begin[p + 2..];
          OnText(begin[..p + 1]);
          begin, p := begin[p + 2..], 0;
          assert begin[0..] == begin;
        } else {
          p := p + 1;
        }
      }
      assert begin[p..] == "";
      OnText(begin);
    }

    /** The writer of the two-pass path. */
    method Write(seg: string)
      modifies this
      ensures numParts == old(numParts) + Written(false, seg)
    {
      var begin := seg;
      ghost var total := numParts + Written(false, seg);
      while begin != ""
        invariant numParts + Written(false, begin) == total
        decreases |begin|
      {
        WrittenAt(false, begin);
        var p := Find(begin, '}');
        if p == |begin| {
          OnText(begin);
          return;
        }
        if p + 1 == |begin| || begin[p + 1] != '}' { return; }
        OnText(begin[..p + 1]);
        begin := begin[p + 2..];
      }
    }

    /** The two-pass path: an unmatched brace ends a stretch, but not the loop. */
    method CountLong(s: string)
      modifies this
      ensures numParts == old(numParts) + PartsIn(true, false, s)
    {
      var begin := s;
      ghost var total := numParts + PartsIn(true, false, s);
      while begin != ""
        invariant numParts + PartsIn(true, false, begin) == total
        decreases |begin|
      {
        var p := Find(begin, '{');
        assert begin == begin[..p] + begin[p..];
        CountStretch(false, begin[..p], begin[p..]);
        Write(begin[..p]);
        if p == |begin| { return; }
        begin := ParseReplacementField(begin[p..]);
      }
    }
  }

  method CountParts(s: string) returns (n: nat)
    ensures n == Counted(s)
  {
    var counter := new Counter();
    if |s| < 32 {
      counter.CountShort(s);
    } else {
      counter.CountLong(s);
    }
    n := counter.numParts;
  }

  // ----- the same parts

  predicate IsBraceTyped(item: Item) {
    item.Replacement? && item.field.spec.Some? && item.field.spec.value.kind == Some('{')
  }

  predicate Accepted(items: seq<Item>) { forall i :: 0 <= i < |items| ==> items[i] != Error }

  /** The number of parts that an event adds. */
  function PartsOf(item: Item): nat { if item == Text("") || item == Error then 0 else 1 }

  function PartCount(items: seq<Item>): nat { if items == [] then 0 else PartsOf(items[0]) + PartCount(items[1..]) }

  /** A field with a brace as its type has nothing behind it. */
  ghost predicate OnlyLast(items: seq<Item>) {
    items == [] || ((IsBraceTyped(items[0]) ==> PartCount(items[1..]) == 0) && OnlyLast(items[1..]))
  }

  lemma CountCons(item: Item, items: seq<Item>)
    ensures PartCount([item] + items) == PartsOf(item) + PartCount(items)
    ensures Accepted([item] + items) <==> item != Error && Accepted(items)
    ensures OnlyLast([item] + items) <==> (IsBraceTyped(item) ==> PartCount(items) == 0) && OnlyLast(items)
  {
    var all := [item] + items;
    assert all[0] == item && all[1..] == items && forall i :: 0 <= i < |items| ==> items[i] == all[i + 1];
  }

  lemma OpenCounts(text: string, s: string)
    requires s != "" && s[0] == '{' && Accepted(Parse(text, s))
    ensures var field := ParseField(s);
            field.Ok? && PartsOf(field.value) == 1 && Accepted(Parse("", field.rest)) &&
            PartCount(Parse(text, s)) == PartsOf(Text(text)) + 1 + PartCount(Parse("", field.rest)) &&
            (OnlyLast(Parse(text, s)) <==>
             (IsBraceTyped(field.value) ==> PartCount(Parse("", field.rest)) == 0) && OnlyLast(Parse("", field.rest)))
  {
    ParseOpen(text, s);
    CountCons(Text(text), AfterOpen(s));
    if ParseField(s).Bad? {
      BadIsError(s);
    } else {
      AfterCounts(s);
    }
  }

  lemma AfterCounts(s: string)
    requires s != "" && s[0] == '{' && ParseField(s).Ok?
    ensures var field, more := ParseField(s), Parse("", ParseField(s).rest);
            PartCount(AfterOpen(s)) == PartsOf(field.value) + PartCount(more) && PartsOf(field.value) == 1 &&
            (Accepted(AfterOpen(s)) <==> Accepted(more)) &&
            (OnlyLast(AfterOpen(s)) <==> (IsBraceTyped(field.value) ==> PartCount(more) == 0) && OnlyLast(more))
  {
    CountCons(ParseField(s).value, Parse("", ParseField(s).rest));
  }

  lemma BadIsError(s: string)
    requires s != "" && ParseField(s).Bad?
    ensures !Accepted(AfterOpen(s))
  {
    assert AfterOpen(s)[0] == Error;
  }

  lemma CloseCounts(text: string, s: string)
    requires s != "" && s[0] == '}' && Accepted(Parse(text, s))
    ensures Head(s[1..]) == '}' && Accepted(Parse("", s[2..]))
    ensures PartCount(Parse(text, s)) == 1 + PartCount(Parse("", s[2..]))
    ensures OnlyLast(Parse(text, s)) <==> OnlyLast(Parse("", s[2..]))
  {
    AtClose(text, s);
    if Head(s[1..]) == '}' {
      CountCons(Text(text + "}"), Parse("", s[2..]));
    } else {
      LoneIsError(text, s);
    }
  }

  lemma LoneIsError(text: string, s: string)
    requires s != "" && s[0] == '}' && Head(s[1..]) != '}'
    ensures !Accepted(Parse(text, s))
  {
    AtClose(text, s);
    assert Parse(text, s)[0] == Error;
  }

  lemma EndCounts(text: string)
    ensures PartCount(Parse(text, "")) == PartsOf(Text(text)) && OnlyLast(Parse(text, ""))
  {
    assert [Text(text)][1..] == [];
  }

  lemma IdCounts(s: string)
    requires s != "" && ParseArgId(s).Ok?
    ensures CountId(s) == (true, ParseArgId(s).rest)
  {
    if IsDigit(s[0]) && s[0] != '0' {
      ReadsAll(s, 0);
      assert s[..0] == "" && s[0..] == s;
    }
  }

  /**
   A field counts for one, and ends at the same place for the counter; but a brace as its
   type makes the counter look for another closing brace.
   */
  lemma FieldCounts(s: string)
    requires s != "" && s[0] == '{' && ParseField(s).Ok?
    ensures var field, counted := ParseField(s), CountField(s);
            counted.0 == 1 &&
            counted.1 == if !IsBraceTyped(field.value) then field.rest
                         else var close := MatchBrace(field.rest, 0); if close == "" then "" else close[1..]
  {
    var inner := s[1..];
    if inner[0] != '}' && inner[0] != '{' {
      IdCounts(inner);
      var rest := ParseArgId(inner).rest;
      if Head(rest) == ':' {
        if ParseSpecs(rest[1..]).value.kind == Some('{') {
          SpecsMissBrace(rest[1..]);
        } else {
          SpecsMatchBraces(rest[1..]);
        }
      }
    }
  }

  lemma OtherCounts(text: string, s: string)
    requires s != "" && s[0] != '{' && s[0] != '}'
    ensures Parse(text, s) == Parse(text + [s[0]], s[1..]) && text + [s[0]] != ""
  {}

  /** From the next opening brace on there are no more parts than in all. */
  lemma {:induction false} FromBrace(text: string, s: string)
    requires Accepted(Parse(text, s))
    ensures var rest := s[Find(s, '{')..];
            Accepted(Parse("", rest)) && PartCount(Parse("", rest)) <= PartCount(Parse(text, s))
    decreases |s|
  {
    var i := Find(s, '{');
    if s == "" {
      EndCounts(text);
      EndCounts("");
    } else if s[0] == '{' {
      assert s[0..] == s;
      OpenCounts(text, s);
      OpenAccepted(s);
      OpenCounts("", s);
    } else if s[0] == '}' {
      CloseCounts(text, s);
      FromBrace("", s[2..]);
      FindNext(s, '{');
      FindNext(s[1..], '{');
      DropDrop(s, 1, 1);
    } else {
      OtherCounts(text, s);
      FromBrace(text + [s[0]], s[1..]);
      FindNext(s, '{');
    }
  }

  lemma OpenAccepted(s: string)
    requires s != "" && s[0] == '{' && ParseField(s).Ok? && Accepted(Parse("", ParseField(s).rest))
    requires ParseField(s).value != Error
    ensures Accepted(Parse("", s))
  {
    var field := ParseField(s);
    ParseOpen("", s);
    CountCons(Text(""), AfterOpen(s));
    CountCons(field.value, Parse("", field.rest));
  }

  /**
   In step with the parser the counter counts no more than there is, and as much if and only
   if a brace as a type is met in the last field at most.
   */
  lemma {:induction false} InStep(long: bool, text: string, s: string)
    requires Accepted(Parse(text, s))
    ensures PartsIn(long, text != "", s) <= PartCount(Parse(text, s))
    ensures PartsIn(long, text != "", s) == PartCount(Parse(text, s)) <==> OnlyLast(Parse(text, s))
    decreases |s|, 0
  {
    if s == "" {
      EndCounts(text);
    } else if s[0] == '{' {
      OpenCounts(text, s);
      FieldCounts(s);
      var field := ParseField(s);
      if IsBraceTyped(field.value) {
        Astray(long, 0, "", field.rest);
        if field.rest == "" { EndCounts(""); }
      } else {
        InStep(long, "", field.rest);
      }
    } else if s[0] == '}' {
      CloseCounts(text, s);
      InStep(long, "", s[2..]);
    } else {
      OtherCounts(text, s);
      InStep(long, text + [s[0]], s[1..]);
    }
  }

  /** What the counter finds when it still looks for a closing brace. */
  ghost function Missed(long: bool, depth: nat, s: string): nat {
    var close := MatchBrace(s, depth);
    if close == "" then 0 else PartsIn(long, false, close[1..])
  }

  /** Looking for a closing brace the counter misses a part, if there are any. */
  lemma {:induction false} Astray(long: bool, depth: nat, text: string, s: string)
    requires Accepted(Parse(text, s))
    ensures Missed(long, depth, s) <= PartCount(Parse(text, s))
    ensures text != "" || s != "" ==> Missed(long, depth, s) < PartCount(Parse(text, s))
    decreases |s|, 2
  {
    if s == "" {
      EndCounts(text);
    } else if s[0] == '{' {
      OpenCounts(text, s);
      var rest := ParseField(s).rest;
      var deeper := SkipField(s, depth);
      Astray(long, deeper, "", rest);
    } else if s[0] == '}' {
      CloseCounts(text, s);
      ClosePair(s, depth);
      if depth == 0 {
        Behind(long, s[2..]);
      } else if depth == 1 {
        InStep(long, "", s[2..]);
      } else {
        Astray(long, depth - 2, "", s[2..]);
      }
    } else {
      OtherCounts(text, s);
      Astray(long, depth, text + [s[0]], s[1..]);
    }
  }

  lemma ClosePair(s: string, depth: nat)
    requires s != "" && s[0] == '}' && Head(s[1..]) == '}'
    ensures MatchBrace(s, depth) ==
            if depth == 0 then ['}'] + (['}'] + s[2..]) else if depth == 1 then ['}'] + s[2..] else MatchBrace(s[2..], depth - 2)
  {
    assert s[1..] == ['}'] + s[2..] && s == ['}'] + s[1..];
  }

  /** No field closes a brace that is open before it. */
  lemma SkipField(s: string, depth: nat) returns (deeper: nat)
    requires s != "" && s[0] == '{' && ParseField(s).Ok?
    ensures MatchBrace(s, depth) == MatchBrace(ParseField(s).rest, deeper)
  {
    var inner, field := s[1..], ParseField(s);
    if inner[0] == '}' {
      deeper := depth;
    } else if inner[0] == '{' {
      deeper := depth + 2;
    } else {
      var rest := ParseArgId(inner).rest;
      SkipArgId(inner);
      assert MatchBrace(s, depth) == MatchBrace(inner, depth + 1) == MatchBrace(rest, depth + 1);
      if Head(rest) == '}' {
        deeper := depth;
      } else {
        assert MatchBrace(rest, depth + 1) == MatchBrace(rest[1..], depth + 1);
        deeper := SkipSpecsOf(rest[1..], depth);
      }
    }
  }

  lemma SkipSpecsOf(s: string, depth: nat) returns (deeper: nat)
    requires ParseSpecs(s).Ok? && Head(ParseSpecs(s).rest) == '}'
    ensures MatchBrace(s, depth + 1) == MatchBrace(ParseSpecs(s).rest[1..], deeper)
  {
    var rest := ParseSpecs(s).rest;
    if s == "" || s[0] == '}' {
      deeper := depth;
    } else {
      var s6 := SkipSpecs(s);
      assert MatchBrace(s, depth + 1) == MatchBrace(s6, depth + 1);
      deeper := SkipKind(s6, rest, depth);
    }
  }

  lemma SkipKind(s: string, rest: string, depth: nat) returns (deeper: nat)
    requires ParseType(s).1 == rest && Head(rest) == '}'
    ensures MatchBrace(s, depth + 1) == MatchBrace(rest[1..], deeper)
  {
    if ParseType(s).0 == Some('{') {
      deeper := depth + 1;
      assert MatchBrace(s, depth + 1) == MatchBrace(rest, depth + 2);
    } else {
      deeper := depth;
      SkipType(s);
    }
  }

  /** One closing brace behind, the counter finds no more than there is. */
  lemma {:induction false} Behind(long: bool, s: string)
    requires Accepted(Parse("", s))
    ensures PartsIn(long, false, ['}'] + s) <= PartCount(Parse("", s))
    decreases |s|, 1
  {
    var late := ['}'] + s;
    assert late[1..] == s;
    if s != "" && s[0] == '}' {
      CloseCounts("", s);
      assert s[1..] == ['}'] + s[2..] && late[2..] == s[1..];
      Behind(long, s[2..]);
    } else if long {
      FromBrace("", s);
      assert late[..1] == ['}'];
      FindNext(late, '{');
      InStep(long, "", s[Find(s, '{')..]);
    }
  }

  // ----- in terms of compiled parts

  /** No part but the last has a brace as its type. */
  predicate OnlyLastPart(parts: seq<Part>) {
    forall i :: 0 <= i < |parts| - 1 ==> !IsBracePart(parts[i])
  }

  predicate IsBracePart(part: Part) { part.ReplacementPart? && part.specs.kind == '{' }

  lemma OnlyLastCons(part: Part, parts: seq<Part>)
    ensures OnlyLastPart([part] + parts) <==> (IsBracePart(part) ==> parts == []) && OnlyLastPart(parts)
  {
    var all := [part] + parts;
    assert all[0] == part && forall i :: 0 <= i < |parts| ==> parts[i] == all[i + 1];
    if OnlyLastPart(all) {
      forall i | 0 <= i < |parts| - 1 ensures !IsBracePart(parts[i]) {
        assert !IsBracePart(all[i + 1]);
      }
    }
  }

  /** The compiler emits the parts that are counted in its events. */
  lemma {:induction false} CompiledCount(items: seq<Item>, next: int)
    requires Compiled(items, next).Some?
    ensures Accepted(items) && |Compiled(items, next).value| == PartCount(items)
    ensures OnlyLast(items) <==> OnlyLastPart(Compiled(items, next).value)
  {
    if items != [] {
      var head, tail := items[0], items[1..];
      var compiled := CompileItem(head, next);
      var rest := Compiled(tail, compiled.value.1).value;
      CompiledCount(tail, compiled.value.1);
      assert items == [head] + tail;
      CountCons(head, tail);
      if compiled.value.0 == [] {
        assert [] + rest == rest;
      } else {
        var part := compiled.value.0[0];
        assert compiled.value.0 == [part] && (IsBracePart(part) <==> IsBraceTyped(head));
        OnlyLastCons(part, rest);
      }
    }
  }

  /**
   For every string that compiles: the counter never counts too many parts; it counts as many
   as are compiled, and an array of that size (or of one) is large enough, if and only if no
   part but the last has a brace as its type.
   */
  lemma CounterAgrees(s: string)
    requires Compiled(Parse("", s), 0).Some?
    ensures var n, parts := Counted(s), Compiled(Parse("", s), 0).value;
            n <= |parts| &&
            (n == |parts| <==> OnlyLastPart(parts)) &&
            (|parts| <= (if n < 1 then 1 else n) <==> OnlyLastPart(parts))
  {
    CompiledCount(Parse("", s), 0);
    InStep(IsLong(s), "", s);
  }

  /** With a brace as its type in front of a text the counter misses the text. */
  lemma BraceTypeExample()
    ensures var s := "{:5{}x";
            Compiled(Parse("", s), 0).Some? && |Compiled(Parse("", s), 0).value| == 2 && Counted(s) == 1
  {
    var s := "{:5{}x";
    assert |s| == 6;
    var field := Replacement(Field(Auto, Some(NO_SPEC.(width := Static(5), kind := Some('{')))));
    BraceTypeField(field);
    BraceTypeCounted(s, field);
    BraceTypeParsed(s, field);
    BraceTypeParts(field, [Text(""), field, Text("x")]);
  }

  lemma BraceTypeCounted(s: string, field: Item)
    requires 0 < |s| < 32 && s[0] == '{' && ParseField(s) == Ok(field, "x") && IsBraceTyped(field)
    ensures Counted(s) == 1
  {
    FieldCounts(s);
    assert "x"[1..] == "" && MatchBrace("x", 0) == "";
    assert CountField(s) == (1, "") && PartsIn(false, false, "") == 0;
  }

  lemma BraceTypeParsed(s: string, field: Item)
    requires s != "" && s[0] == '{' && ParseField(s) == Ok(field, "x")
    ensures Parse("", s) == [Text(""), field, Text("x")]
  {
    ParseOpen("", s);
    assert "x"[1..] == "" && "" + "x" == "x";
    assert Parse("", "x") == [Text("x")];
  }

  lemma BraceTypeField(field: Item)
    requires field == Replacement(Field(Auto, Some(NO_SPEC.(width := Static(5), kind := Some('{')))))
    ensures ParseField("{:5{}x") == Ok(field, "x")
  {
    BraceTypeSpecs(field.field.spec.value);
    assert "{:5{}x"[1..] == ":5{}x" && ":5{}x"[1..] == "5{}x";
    assert ParseArgId(":5{}x") == Ok(Auto, ":5{}x");
    assert "}x"[1..] == "x";
  }

  lemma BraceTypeParts(field: Item, items: seq<Item>)
    requires field.Replacement? && field.field.id == Auto && field.field.spec.Some?
    requires field.field.spec.value == NO_SPEC.(width := Static(5), kind := Some('{'))
    requires items == [Text(""), field, Text("x")]
    ensures Compiled(items, 0).Some? && |Compiled(items, 0).value| == 2
  {
    assert items == [Text("")] + ([field] + ([Text("x")] + []));
    CompiledCons(Text("x"), [], 1);
    CompiledCons(field, [Text("x")] + [], 0);
    CompiledCons(Text(""), [field] + ([Text("x")] + []), 0);
  }

  lemma BraceTypeSpecs(spec: Spec)
    requires spec == NO_SPEC.(width := Static(5), kind := Some('{'))
    ensures ParseSpecs("5{}x") == Ok(spec, "}x")
  {
    var s := "5{}x";
    assert s[1..] == "{}x" && s[1..][1..] == "}x";
    assert Digits("{}x") == 0 && Digits(s) == 1 && s[..1] == "5";
    assert "5"[..0] == "" && Decimal("5") == 5;
    assert CodePointLength(s) == 1 && ParseAlign(s) == Ok((None, None), s);
    assert ParseWidth(s) == Ok(Static(5), "{}x");
    assert ParsePrecision("{}x") == Ok(Absent, "{}x");
  }
}
