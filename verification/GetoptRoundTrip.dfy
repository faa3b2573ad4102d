/**
 Command lines as they are written, and that scanning them reports what was meant: flags alone
 and grouped, arguments attached and separate, long options, and non-options among them.
 */
module GetoptRoundTrip {
  import opened Sequences
  import opened Options
  import opened Getopt

  // ----- what an option string says

  /** The first occurrence of a letter, followed by this many colons; more than two count as two. */
  predicate ListedAt(options: string, c: char, colons: nat, i: nat) {
    i < |options| && options[i] == c && c !in options[..i] &&
    match colons
    case 0 => i + 1 == |options| || options[i + 1] != ':'
    case 1 => i + 1 < |options| && options[i + 1] == ':' && (i + 2 == |options| || options[i + 2] != ':')
    case 2 => i + 2 < |options| && options[i + 1] == options[i + 2] == ':'
    case _ => false
  }

  /** No colon: a flag. One: an argument is required. Two: an argument is optional. */
  predicate Listed(cfg: Config, c: char, colons: nat) {
    c != ':' && c != '-' && !(cfg.long.Some? && IsLongLetter(cfg.options, c)) &&
    exists i :: 0 <= i < |cfg.options| && ListedAt(cfg.options, c, colons, i)
  }

  /** The letter W, followed by a semicolon, introduces a long option. */
  predicate IsLongLetter(options: string, c: char) {
    c == 'W' && exists i :: 0 <= i < |options| - 1 && options[i] == 'W' && 'W' !in options[..i] && options[i + 1] == ';'
  }

  // ----- what is meant, and how it is written

  /** One letter of a group; a stray one is not listed. */
  datatype Mark = Flag(letter: char) | Stray(letter: char)

  /**
   One thing on a command line. Flags can be grouped in one word, the last of them followed by
   an option with an argument, which is attached or stands in the next word.
   */
  datatype Use =
    | Group(marks: seq<Mark>)
    | Attached(marks: seq<Mark>, letter: char, arg: string)
    | Separate(marks: seq<Mark>, letter: char, arg: string)
    | Bare(marks: seq<Mark>, letter: char)
    | LongFlag(name: string)
    | LongArg(name: string, arg: string)
    | LongLetter(marks: seq<Mark>, name: string, joined: bool)
    | LongLetterArg(marks: seq<Mark>, name: string, joined: bool, arg: string)
    | Operand(word: string)

  predicate IsLegalMark(cfg: Config, mark: Mark) {
    match mark
    case Flag(c) => Listed(cfg, c, 0)
    case Stray(c) => c != '-' && (c == ':' || c !in cfg.options)
  }

  predicate AreLegal(cfg: Config, marks: seq<Mark>) { forall i :: 0 <= i < |marks| ==> IsLegalMark(cfg, marks[i]) }

  predicate IsLegal(cfg: Config, use: Use) {
    match use
    case Group(marks) => AreLegal(cfg, marks) && marks != []
    case Attached(marks, c, arg) => AreLegal(cfg, marks) && arg != "" && (Listed(cfg, c, 1) || Listed(cfg, c, 2))
    case Separate(marks, c, arg) => AreLegal(cfg, marks) && Listed(cfg, c, 1)
    case Bare(marks, c) => AreLegal(cfg, marks) && Listed(cfg, c, 2)
    case LongFlag(name) => name != "" && cfg.long.Some? && cfg.long.value(name) == Plain
    case LongArg(name, arg) => name != "" && cfg.long.Some? && cfg.long.value(name) == Required
    case LongLetter(marks, name, joined) =>
      AreLegal(cfg, marks) && cfg.long.Some? && IsLongLetter(cfg.options, 'W') && (joined ==> name != "") &&
      cfg.long.value(name) == Plain
    case LongLetterArg(marks, name, joined, arg) =>
      AreLegal(cfg, marks) && cfg.long.Some? && IsLongLetter(cfg.options, 'W') && (joined ==> name != "") &&
      cfg.long.value(name) == Required
    case Operand(word) => word == "" || word[0] != '-' || (word == "-" && '-' !in cfg.options)
  }

  function Letters(marks: seq<Mark>): string { if marks == [] then "" else [marks[0].letter] + Letters(marks[1..]) }

  function Words(use: Use): seq<string> {
    match use
    case Group(marks) => ["-" + Letters(marks)]
    case Attached(marks, c, arg) => ["-" + (Letters(marks) + ([c] + arg))]
    case Separate(marks, c, arg) => ["-" + (Letters(marks) + [c]), arg]
    case Bare(marks, c) => ["-" + (Letters(marks) + [c])]
    case LongFlag(name) => ["--" + name]
    case LongArg(name, arg) => ["--" + name, arg]
    case LongLetter(marks, name, joined) =>
      if joined then ["-" + (Letters(marks) + ("W" + name))] else ["-" + (Letters(marks) + "W"), name]
    case LongLetterArg(marks, name, joined, arg) =>
      if joined then ["-" + (Letters(marks) + ("W" + name)), arg] else ["-" + (Letters(marks) + "W"), name, arg]
    case Operand(word) => [word]
  }

  function MarkEvent(mark: Mark): Event {
    match mark
    case Flag(c) => Short(c, None)
    case Stray(c) => Unknown(c)
  }

  function MarkEvents(marks: seq<Mark>): seq<Event> {
    if marks == [] then [] else [MarkEvent(marks[0])] + MarkEvents(marks[1..])
  }

  function Events(use: Use): seq<Event> {
    match use
    case Group(marks) => MarkEvents(marks)
    case Attached(marks, c, arg) => MarkEvents(marks) + [Short(c, Some(arg))]
    case Separate(marks, c, arg) => MarkEvents(marks) + [Short(c, Some(arg))]
    case Bare(marks, c) => MarkEvents(marks) + [Short(c, None)]
    case LongFlag(name) => [Long(name, None)]
    case LongArg(name, arg) => [Long(name, Some(arg))]
    case LongLetter(marks, name, _) => MarkEvents(marks) + [Long(name, None)]
    case LongLetterArg(marks, name, _, arg) => MarkEvents(marks) + [Long(name, Some(arg))]
    case Operand(_) => []
  }

  /** Which words are options or their arguments. */
  function Kinds(use: Use): seq<bool> {
    match |Words(use)|
    case 1 => [!use.Operand?]
    case 2 => [true, true]
    case _ => [true, true, true]
  }

  function AllWords(uses: seq<Use>): seq<string> { if uses == [] then [] else Words(uses[0]) + AllWords(uses[1..]) }

  function AllEvents(uses: seq<Use>): seq<Event> { if uses == [] then [] else Events(uses[0]) + AllEvents(uses[1..]) }

  function AllKinds(uses: seq<Use>): seq<bool> { if uses == [] then [] else Kinds(uses[0]) + AllKinds(uses[1..]) }

  // ----- single letters

  lemma FindListed(options: string, c: char, colons: nat, i: nat)
    requires ListedAt(options, c, colons, i)
    ensures Find(options, c) == i
  {
    FindIs(options, c, i);
  }

  lemma LongLetterIs(options: string, c: char)
    ensures IsLongLetter(options, c) <==> c == 'W' && CharAt(options, Find(options, c) + 1) == ';'
  {
    if IsLongLetter(options, c) {
      var i :| 0 <= i < |options| - 1 && options[i] == 'W' && 'W' !in options[..i] && options[i + 1] == ';';
      FindIs(options, c, i);
    } else if c == 'W' {
      var i := Find(options, c);
      assert i + 1 < |options| ==> options[i] == 'W' && 'W' !in options[..i];
    }
  }

  /** A letter of a group, in front of the rest of its word. */
  lemma MarkStep(cfg: Config, mark: Mark, rest: string, next: seq<string>)
    requires IsLegalMark(cfg, mark)
    ensures LetterStep(cfg, [mark.letter] + rest, false, next) ==
            Letter(MarkEvent(mark), rest, if rest == "" then 1 else 0)
  {
    var c := mark.letter;
    assert ([c] + rest)[1..] == rest;
    LongLetterIs(cfg.options, c);
    if mark.Flag? {
      var i :| 0 <= i < |cfg.options| && ListedAt(cfg.options, c, 0, i);
      FindListed(cfg.options, c, 0, i);
    }
  }

  /** An option with an attached argument. */
  lemma AttachedStep(cfg: Config, c: char, arg: string, next: seq<string>)
    requires arg != "" && (Listed(cfg, c, 1) || Listed(cfg, c, 2))
    ensures LetterStep(cfg, [c] + arg, false, next) == Letter(Short(c, Some(arg)), "", 1)
  {
    assert ([c] + arg)[1..] == arg;
    LongLetterIs(cfg.options, c);
    var k := if Listed(cfg, c, 1) then 1 else 2;
    var i :| 0 <= i < |cfg.options| && ListedAt(cfg.options, c, k, i);
    FindListed(cfg.options, c, k, i);
  }

  /** At the end of a word: a required argument is the next word, an optional one is missing. */
  lemma LastStep(cfg: Config, c: char, colons: nat, next: seq<string>)
    requires (colons == 1 || colons == 2) && Listed(cfg, c, colons)
    ensures LetterStep(cfg, [c], false, next) ==
            if colons == 2 then Letter(Short(c, None), "", 1)
            else if next == [] then Letter(Missing(c), "", 1)
            else Letter(Short(c, Some(next[0])), "", 2)
  {
    assert [c][1..] == "";
    LongLetterIs(cfg.options, c);
    var i :| 0 <= i < |cfg.options| && ListedAt(cfg.options, c, colons, i);
    FindListed(cfg.options, c, colons, i);
  }

  /** The letter that introduces a long option. */
  lemma LongLetterStep(cfg: Config, name: string, next: seq<string>)
    requires cfg.long.Some? && IsLongLetter(cfg.options, 'W')
    ensures LetterStep(cfg, "W" + name, false, next) ==
            if name != "" then LongStep(cfg.long.value(name), name, 1, next)
            else if next == [] then Letter(Missing('W'), "", 1)
            else LongStep(cfg.long.value(next[0]), next[0], 2, next[1..])
  {
    assert ("W" + name)[1..] == name;
    LongLetterIs(cfg.options, 'W');
  }

  // ----- words

  /** What is reported, and what is scanned behind it. */
  ghost function Then(events: seq<Event>, kinds: seq<bool>, scan: Scan): Scan {
    Scan(events + scan.events, kinds + scan.kinds, scan.stop)
  }

  /** A word that is not the whole of its argument is read to its end. */
  lemma ScanLast(cfg: Config, args: seq<string>, place: string, event: Event, taken: nat)
    requires args != [] && place != "" && |place| < |args[0]|
    requires LetterStep(cfg, place, false, args[1..]) == Letter(event, "", taken)
    ensures 0 < taken <= |args|
    ensures ScanFrom(cfg, args, place) == Then([event], Trues(taken), ScanFrom(cfg, args[taken..], ""))
  {}

  /** A letter in front of the rest of its word. */
  lemma ScanFirst(cfg: Config, args: seq<string>, place: string, event: Event, rest: string)
    requires args != [] && place != "" && |place| < |args[0]| && rest != ""
    requires LetterStep(cfg, place, false, args[1..]) == Letter(event, rest, 0)
    ensures ScanFrom(cfg, args, place) == Then([event], [], ScanFrom(cfg, args, rest))
  {
    NoKinds(ScanFrom(cfg, args, rest).kinds);
  }

  lemma NoKinds(kinds: seq<bool>)
    ensures [] + kinds == kinds
  {}

  lemma ThenKinds(a: seq<Event>, b: seq<Event>, kinds: seq<bool>, scan: Scan)
    ensures Then(a, [], Then(b, kinds, scan)) == Then(a + b, kinds, scan)
  {
    Associates(a, b, scan.events);
    NoKinds(kinds + scan.kinds);
  }

  lemma LettersFirst(marks: seq<Mark>, rest: string)
    requires marks != []
    ensures Letters(marks) + rest == [marks[0].letter] + (Letters(marks[1..]) + rest)
  {
    Associates([marks[0].letter], Letters(marks[1..]), rest);
  }

  lemma LegalTail(cfg: Config, marks: seq<Mark>)
    requires marks != [] && AreLegal(cfg, marks)
    ensures IsLegalMark(cfg, marks[0]) && AreLegal(cfg, marks[1..])
  {}

  /** A group of letters, in front of the rest of its word. */
  lemma {:induction false} ScanMarks(cfg: Config, args: seq<string>, marks: seq<Mark>, rest: string)
    requires args != [] && AreLegal(cfg, marks) && rest != "" && |Letters(marks) + rest| < |args[0]|
    ensures ScanFrom(cfg, args, Letters(marks) + rest) == Then(MarkEvents(marks), [], ScanFrom(cfg, args, rest))
  {
    var scan := ScanFrom(cfg, args, rest);
    if marks == [] {
      assert "" + rest == rest && [] + scan.events == scan.events;
      NoKinds(scan.kinds);
    } else {
      var more, event := Letters(marks[1..]) + rest, MarkEvent(marks[0]);
      LettersFirst(marks, rest);
      LegalTail(cfg, marks);
      ScanMarks(cfg, args, marks[1..], rest);
      MarkStep(cfg, marks[0], more, args[1..]);
      ScanFirst(cfg, args, [marks[0].letter] + more, event, more);
      ThenKinds([event], MarkEvents(marks[1..]), [], scan);
    }
  }

  /** A word that begins with a dash and is longer. */
  lemma ScanWord(cfg: Config, args: seq<string>, place: string)
    requires args != [] && args[0] == "-" + place && place != "" && place[0] != '-'
    ensures ScanFrom(cfg, args, "") == ScanFrom(cfg, args, place) && |place| < |args[0]|
  {
    assert args[0][1..] == place && FirstLetters(args[0]) == place && args[0][1] == place[0];
  }

  lemma LettersPlain(cfg: Config, marks: seq<Mark>, rest: string)
    requires AreLegal(cfg, marks) && (rest == "" || rest[0] != '-') && (marks != [] || rest != "")
    ensures var s := Letters(marks) + rest; s != "" && s[0] != '-'
  {
    if marks != [] {
      LettersFirst(marks, rest);
      LegalTail(cfg, marks);
    }
  }

  /** Flags, and then one more option that uses up the word. */
  lemma ScanGroup(cfg: Config, args: seq<string>, marks: seq<Mark>, last: string, event: Event, taken: nat)
    requires args != [] && AreLegal(cfg, marks) && last != "" && last[0] != '-' && args[0] == "-" + (Letters(marks) + last)
    requires LetterStep(cfg, last, false, args[1..]) == Letter(event, "", taken)
    ensures 0 < taken <= |args| &&
            ScanFrom(cfg, args, "") == Then(MarkEvents(marks) + [event], Trues(taken), ScanFrom(cfg, args[taken..], ""))
  {
    LettersPlain(cfg, marks, last);
    ScanWord(cfg, args, Letters(marks) + last);
    ScanMarks(cfg, args, marks, last);
    ScanLast(cfg, args, last, event, taken);
    ThenKinds(MarkEvents(marks), [event], Trues(taken), ScanFrom(cfg, args[taken..], ""));
  }

  // ----- one use

  /** A word that uses up itself, and perhaps the words after it. */
  lemma GroupFirst(cfg: Config, words: seq<string>, rest: seq<string>, marks: seq<Mark>, last: string, event: Event)
    requires words != [] && AreLegal(cfg, marks) && last != "" && last[0] != '-'
    requires words[0] == "-" + (Letters(marks) + last)
    requires LetterStep(cfg, last, false, words[1..] + rest) == Letter(event, "", |words|)
    ensures ScanFrom(cfg, words + rest, "") == Then(MarkEvents(marks) + [event], Trues(|words|), ScanFrom(cfg, rest, ""))
  {
    var args := words + rest;
    assert args[1..] == words[1..] + rest && args[|words|..] == rest;
    ScanGroup(cfg, args, marks, last, event, |words|);
  }

  lemma {:induction false} LettersSnoc(marks: seq<Mark>, mark: Mark)
    ensures Letters(marks + [mark]) == Letters(marks) + [mark.letter]
    ensures MarkEvents(marks + [mark]) == MarkEvents(marks) + [MarkEvent(mark)]
  {
    if marks == [] {
      assert [] + [mark] == [mark] && [mark][1..] == [];
      assert Letters([]) == "" && MarkEvents([]) == [];
    } else {
      var tail := marks[1..];
      LettersSnoc(tail, mark);
      assert (marks + [mark])[1..] == tail + [mark];
      Associates([marks[0].letter], Letters(tail), [mark.letter]);
      Associates([MarkEvent(marks[0])], MarkEvents(tail), [MarkEvent(mark)]);
    }
  }

  lemma GroupEnds(cfg: Config, front: seq<Mark>, mark: Mark, rest: seq<string>)
    requires AreLegal(cfg, front) && IsLegalMark(cfg, mark) && mark.letter != '-'
    ensures ScanFrom(cfg, ["-" + (Letters(front) + [mark.letter])] + rest, "") ==
            Then(MarkEvents(front) + [MarkEvent(mark)], [true], ScanFrom(cfg, rest, ""))
  {
    var words, last := ["-" + (Letters(front) + [mark.letter])], [mark.letter];
    assert last + "" == last;
    MarkStep(cfg, mark, "", words[1..] + rest);
    GroupFirst(cfg, words, rest, front, last, MarkEvent(mark));
    TruesAre();
  }

  lemma GroupScans(cfg: Config, marks: seq<Mark>, rest: seq<string>)
    requires AreLegal(cfg, marks) && marks != []
    ensures ScanFrom(cfg, Words(Group(marks)) + rest, "") == Then(MarkEvents(marks), [true], ScanFrom(cfg, rest, ""))
  {
    var front, mark := marks[..|marks| - 1], marks[|marks| - 1];
    assert IsLegalMark(cfg, mark) && AreLegal(cfg, front);
    GroupEnds(cfg, front, mark, rest);
    LettersSnoc(front, mark);
    assert marks == front + [mark];
  }

  lemma LettersScan(cfg: Config, use: Use, rest: seq<string>)
    requires IsLegal(cfg, use) && (use.Attached? || use.Separate? || use.Bare?)
    ensures ScanFrom(cfg, Words(use) + rest, "") == Then(Events(use), Trues(|Words(use)|), ScanFrom(cfg, rest, ""))
  {
    var words, c := Words(use), use.letter;
    match use
    case Attached(marks, _, arg) =>
      AttachedStep(cfg, c, arg, words[1..] + rest);
      GroupFirst(cfg, words, rest, marks, [c] + arg, Short(c, Some(arg)));
    case Separate(marks, _, arg) =>
      LastStep(cfg, c, 1, words[1..] + rest);
      GroupFirst(cfg, words, rest, marks, [c], Short(c, Some(arg)));
    case Bare(marks, _) =>
      LastStep(cfg, c, 2, words[1..] + rest);
      GroupFirst(cfg, words, rest, marks, [c], Short(c, None));
  }

  lemma LongLetterScans(cfg: Config, use: Use, rest: seq<string>)
    requires IsLegal(cfg, use) && (use.LongLetter? || use.LongLetterArg?)
    ensures ScanFrom(cfg, Words(use) + rest, "") == Then(Events(use), Trues(|Words(use)|), ScanFrom(cfg, rest, ""))
  {
    var words, name := Words(use), use.name;
    var next, last := words[1..] + rest, if use.joined then "W" + name else "W";
    assert "W" + "" == "W";
    LongLetterStep(cfg, if use.joined then name else "", next);
    assert !use.joined ==> next[0] == name && next[1..] == words[2..] + rest;
    GroupFirst(cfg, words, rest, use.marks, last, Long(name, if use.LongLetterArg? then Some(use.arg) else None));
  }

  /** A word that begins with two dashes. */
  lemma LongScans(cfg: Config, use: Use, rest: seq<string>)
    requires IsLegal(cfg, use) && (use.LongFlag? || use.LongArg?)
    ensures ScanFrom(cfg, Words(use) + rest, "") == Then(Events(use), Trues(|Words(use)|), ScanFrom(cfg, rest, ""))
  {
    var words, name := Words(use), use.name;
    var args, place := words + rest, "-" + name;
    assert args[1..] == words[1..] + rest && args[|words|..] == rest;
    assert args[0] == "--" + name && args[0][1..] == place && place[1..] == name && |args[0]| > 2;
    ScanLast(cfg, args, place, Long(name, if use.LongArg? then Some(use.arg) else None), |words|);
  }

  lemma OperandScans(cfg: Config, word: string, rest: seq<string>)
    requires IsLegal(cfg, Operand(word))
    ensures ScanFrom(cfg, [word] + rest, "") == Then([], [false], ScanFrom(cfg, rest, ""))
  {
    assert ([word] + rest)[1..] == rest;
    var scan := ScanFrom(cfg, rest, "");
    assert [] + scan.events == scan.events;
  }

  lemma TruesAre()
    ensures Trues(1) == [true] && Trues(2) == [true, true] && Trues(3) == [true, true, true]
  {}

  /** Whatever is legal is reported as it is meant, in front of anything. */
  lemma UseScans(cfg: Config, use: Use, rest: seq<string>)
    requires IsLegal(cfg, use)
    ensures ScanFrom(cfg, Words(use) + rest, "") == Then(Events(use), Kinds(use), ScanFrom(cfg, rest, ""))
  {
    TruesAre();
    match use
    case Group(marks) => GroupScans(cfg, marks, rest);
    case Attached(_, _, _) => LettersScan(cfg, use, rest);
    case Separate(_, _, _) => LettersScan(cfg, use, rest);
    case Bare(_, _) => LettersScan(cfg, use, rest);
    case LongFlag(_) => LongScans(cfg, use, rest);
    case LongArg(_, _) => LongScans(cfg, use, rest);
    case LongLetter(_, _, _) => LongLetterScans(cfg, use, rest);
    case LongLetterArg(_, _, _, _) => LongLetterScans(cfg, use, rest);
    case Operand(word) => OperandScans(cfg, word, rest);
  }

  // ----- whole command lines

  lemma ThenThen(a: seq<Event>, k: seq<bool>, b: seq<Event>, l: seq<bool>, scan: Scan)
    ensures Then(a, k, Then(b, l, scan)) == Then(a + b, k + l, scan)
  {
    Associates(a, b, scan.events);
    Associates(k, l, scan.kinds);
  }

  /** Scanning a command line reports everything on it, and then what follows. */
  lemma {:induction false} UsesScan(cfg: Config, uses: seq<Use>, rest: seq<string>)
    requires forall i :: 0 <= i < |uses| ==> IsLegal(cfg, uses[i])
    ensures ScanFrom(cfg, AllWords(uses) + rest, "") == Then(AllEvents(uses), AllKinds(uses), ScanFrom(cfg, rest, ""))
  {
    if uses == [] {
      var scan := ScanFrom(cfg, rest, "");
      assert [] + rest == rest && [] + scan.events == scan.events;
      NoKinds(scan.kinds);
    } else {
      var use, more := uses[0], AllWords(uses[1..]) + rest;
      UsesScan(cfg, uses[1..], rest);
      UseScans(cfg, use, more);
      Associates(Words(use), AllWords(uses[1..]), rest);
      ThenThen(Events(use), Kinds(use), AllEvents(uses[1..]), AllKinds(uses[1..]), ScanFrom(cfg, rest, ""));
    }
  }

  /** A legal command line is reported exactly as it is meant. */
  lemma CommandLineRoundTrip(cfg: Config, uses: seq<Use>)
    requires forall i :: 0 <= i < |uses| ==> IsLegal(cfg, uses[i])
    ensures ScanFrom(cfg, AllWords(uses), "") == Scan(AllEvents(uses), AllKinds(uses), AtEnd)
  {
    UsesScan(cfg, uses, []);
    assert AllWords(uses) + [] == AllWords(uses);
    assert AllEvents(uses) + [] == AllEvents(uses) && AllKinds(uses) + [] == AllKinds(uses);
  }

  /** Behind two dashes nothing is an option. */
  lemma DashesEnd(cfg: Config, uses: seq<Use>, operands: seq<string>)
    requires forall i :: 0 <= i < |uses| ==> IsLegal(cfg, uses[i])
    ensures ScanFrom(cfg, AllWords(uses) + (["--"] + operands), "") ==
            Scan(AllEvents(uses), AllKinds(uses) + [true], AtDashes)
  {
    UsesScan(cfg, uses, ["--"] + operands);
    assert AllEvents(uses) + [] == AllEvents(uses);
  }

  /** A required argument that is not there: nothing follows the option. */
  lemma ArgumentMissing(cfg: Config, uses: seq<Use>, marks: seq<Mark>, c: char)
    requires forall i :: 0 <= i < |uses| ==> IsLegal(cfg, uses[i])
    requires AreLegal(cfg, marks) && Listed(cfg, c, 1)
    ensures ScanFrom(cfg, AllWords(uses) + ["-" + (Letters(marks) + [c])], "") ==
            Scan(AllEvents(uses) + (MarkEvents(marks) + [Missing(c)]), AllKinds(uses) + [true], AtEnd)
  {
    var words := ["-" + (Letters(marks) + [c])];
    UsesScan(cfg, uses, words);
    assert words[1..] + [] == [] && words + [] == words;
    LastStep(cfg, c, 1, []);
    GroupFirst(cfg, words, [], marks, [c], Missing(c));
    TruesAre();
    assert (MarkEvents(marks) + [Missing(c)]) + [] == MarkEvents(marks) + [Missing(c)] && [true] + [] == [true];
  }

  /** A long option at the end is reported with no argument, whether or not one is required. */
  lemma LongArgumentMissing(cfg: Config, uses: seq<Use>, name: string)
    requires forall i :: 0 <= i < |uses| ==> IsLegal(cfg, uses[i])
    requires name != "" && cfg.long.Some?
    ensures ScanFrom(cfg, AllWords(uses) + ["--" + name], "") ==
            Scan(AllEvents(uses) + [Long(name, None)], AllKinds(uses) + [true], AtEnd)
  {
    var words, place := ["--" + name], "-" + name;
    UsesScan(cfg, uses, words);
    assert words[0][1..] == place && place[1..] == name && words[1..] == [];
    ScanLast(cfg, words, place, Long(name, None), 1);
    TruesAre();
    assert [Long(name, None)] + [] == [Long(name, None)] && [true] + [] == [true];
  }

  /** A dash that ends a group ends the scan, unless it means something. */
  lemma DashStops(cfg: Config, uses: seq<Use>, marks: seq<Mark>, rest: seq<string>)
    requires forall i :: 0 <= i < |uses| ==> IsLegal(cfg, uses[i])
    requires AreLegal(cfg, marks) && marks != [] && cfg.long.None? && '-' !in cfg.options
    ensures ScanFrom(cfg, AllWords(uses) + (["-" + (Letters(marks) + "-")] + rest), "") ==
            Scan(AllEvents(uses) + MarkEvents(marks), AllKinds(uses), AtDash)
  {
    var args := ["-" + (Letters(marks) + "-")] + rest;
    UsesScan(cfg, uses, args);
    LettersFirst(marks, "-");
    LegalTail(cfg, marks);
    ScanWord(cfg, args, Letters(marks) + "-");
    ScanMarks(cfg, args, marks, "-");
    assert LetterStep(cfg, "-", false, args[1..]) == Dash && ScanFrom(cfg, args, "-") == Scan([], [], AtDash);
    assert MarkEvents(marks) + [] == MarkEvents(marks) && AllKinds(uses) + [] == AllKinds(uses);
  }

  /** One colon, two, or none: exactly one of them describes a listed letter. */
  lemma ListedOnce(options: string, c: char)
    requires c != ':' && c != '-' && c in options
    ensures exists n :: 0 <= n <= 2 && Listed(Config(options, None), c, n)
    ensures forall m, n :: Listed(Config(options, None), c, m) && Listed(Config(options, None), c, n) ==> m == n
  {
    var i, cfg := Find(options, c), Config(options, None);
    assert ListedAt(options, c, 0, i) || ListedAt(options, c, 1, i) || ListedAt(options, c, 2, i);
    assert Listed(cfg, c, 0) || Listed(cfg, c, 1) || Listed(cfg, c, 2);
    forall m, n | Listed(cfg, c, m) && Listed(cfg, c, n) ensures m == n {
      var j :| 0 <= j < |options| && ListedAt(options, c, m, j);
      var k :| 0 <= k < |options| && ListedAt(options, c, n, k);
      FindListed(options, c, m, j);
      FindListed(options, c, n, k);
    }
  }
}
