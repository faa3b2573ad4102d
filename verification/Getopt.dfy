/**
 Scanning an argument vector in permute mode. `ScanFrom` is a one-pass reference that never
 moves anything; the class moves arguments in place, one call at a time.
 */
module Getopt {
  import opened Sequences
  import opened Options
  import opened Permute

  /** How a long option takes its argument; a table maps names to kinds. */
  datatype LongKind = Plain | Required

  datatype Config = Config(options: string, long: Option<string -> LongKind>)

  datatype Event =
    | Short(letter: char, arg: Option<string>)
    | Long(name: string, arg: Option<string>)
    | Unknown(letter: char)
    | Missing(letter: char)

  datatype Stop = AtEnd | AtDashes | AtDash

  /** What a scan reports: the events, which arguments were options, and why it stopped. */
  datatype Scan = Scan(events: seq<Event>, kinds: seq<bool>, stop: Stop)

  /** One step inside a word; `taken` arguments are used up when no letters are left. */
  datatype Step = Letter(event: Event, rest: string, taken: nat) | Dash

  function CharAt(s: string, i: nat): char { if i < |s| then s[i] else '\0' }

  /** A non-option: no leading dash, or a lone dash that is not listed as an option. */
  predicate NonOption(cfg: Config, word: string) {
    CharAt(word, 0) != '-' || (|word| == 1 && '-' !in cfg.options)
  }

  /** What follows the leading dash; a lone dash is its own letter. */
  function FirstLetters(word: string): string
    requires word != ""
  {
    if |word| == 1 then word else word[1..]
  }

  /** A long option by name; a required argument comes from the next word, if there is one. */
  function LongStep(kind: LongKind, name: string, used: nat, next: seq<string>): (r: Step)
    ensures r.Letter? && r.rest == "" && used <= r.taken <= used + |next|
  {
    if kind == Required && next != [] then Letter(Long(name, Some(next[0])), "", used + 1)
    else Letter(Long(name, None), "", used)
  }

  /** Processes the first letter of `w`; `whole` says that w is a whole argument, `next` what follows it. */
  function LetterStep(cfg: Config, w: string, whole: bool, next: seq<string>): (r: Step)
    requires w != ""
    ensures r.Letter? ==> |r.rest| < |w| && r.taken <= 1 + |next| && (r.rest == "" <==> r.taken > 0)
    ensures r.Letter? && r.rest != "" ==> r.rest == w[1..]
  {
    var c, rest := w[0], w[1..];
    var oli := Find(cfg.options, c);
    if cfg.long.Some? && !whole && c == '-' then
      LongStep(cfg.long.value(rest), rest, 1, next)
    else if c == ':' || (c == '-' && rest != "") || oli == |cfg.options| then
      if c == '-' && rest == "" then Dash
      else Letter(Unknown(c), rest, if rest == "" then 1 else 0)
    else if cfg.long.Some? && c == 'W' && CharAt(cfg.options, oli + 1) == ';' then
      if rest != "" then LongStep(cfg.long.value(rest), rest, 1, next)
      else if next == [] then Letter(Missing(c), "", 1)
      else LongStep(cfg.long.value(next[0]), next[0], 2, next[1..])
    else if CharAt(cfg.options, oli + 1) != ':' then
      Letter(Short(c, None), rest, if rest == "" then 1 else 0)
    else if rest != "" then Letter(Short(c, Some(rest)), "", 1)
    else if CharAt(cfg.options, oli + 2) == ':' then Letter(Short(c, None), "", 1)
    else if next == [] then Letter(Missing(c), "", 1)
    else Letter(Short(c, Some(next[0])), "", 2)
  }

  function Trues(n: nat): (s: seq<bool>)
    ensures |s| == n && forall i :: 0 <= i < n ==> s[i]
  {
    seq(n, _ => true)
  }

  /**
   Reads `args` from left to right; a nonempty `place` is the unread part of args[0]. A word
   is an option, an argument taken by one, or a non-option; "--" ends the options.
   */
  function ScanFrom(cfg: Config, args: seq<string>, place: string): (r: Scan)
    requires place != "" ==> args != []
    ensures |r.kinds| <= |args|
    decreases |args|, if place == "" then 1 else 0, |place|
  {
    if place == "" then
      if args == [] then Scan([], [], AtEnd)
      else if NonOption(cfg, args[0]) then
        var r := ScanFrom(cfg, args[1..], "");
        r.(kinds := [false] + r.kinds)
      else if args[0] == "--" then Scan([], [true], AtDashes)
      else ScanFrom(cfg, args, FirstLetters(args[0]))
    else
      match LetterStep(cfg, place, |place| == |args[0]|, args[1..])
      case Dash => Scan([], [], AtDash)
      case Letter(event, rest, taken) =>
        if rest != "" then
          var r := ScanFrom(cfg, args, rest);
          r.(events := [event] + r.events)
        else
          var r := ScanFrom(cfg, args[taken..], "");
          Scan([event] + r.events, Trues(taken) + r.kinds, r.stop)
  }

  /** The arguments of one kind, in order. */
  ghost function Select(args: seq<string>, kinds: seq<bool>, kind: bool): (r: seq<string>)
    requires |kinds| <= |args|
  {
    if kinds == [] then []
    else
      var n := |kinds| - 1;
      Select(args, kinds[..n], kind) + if kinds[n] == kind then [args[n]] else []
  }

  lemma SelectSnoc(args: seq<string>, kinds: seq<bool>, k: bool, kind: bool)
    requires |kinds| < |args|
    ensures Select(args, kinds + [k], kind) == Select(args, kinds, kind) + if k == kind then [args[|kinds|]] else []
  {
    assert (kinds + [k])[..|kinds|] == kinds;
  }

  lemma {:induction false} SelectTaken(args: seq<string>, kinds: seq<bool>, taken: nat)
    requires |kinds| + taken <= |args|
    ensures Select(args, kinds + Trues(taken), true) == Select(args, kinds, true) + args[|kinds|..|kinds| + taken]
    ensures Select(args, kinds + Trues(taken), false) == Select(args, kinds, false)
    decreases taken
  {
    if taken == 0 {
      assert kinds + Trues(0) == kinds;
    } else {
      SelectTaken(args, kinds, taken - 1);
      var before, n := kinds + Trues(taken - 1), |kinds| + taken - 1;
      TakeOneMore(args, before, n);
      TruesSnoc(taken - 1);
      Associates(kinds, Trues(taken - 1), [true]);
      MoreTaken(args, Select(args, kinds, true), |kinds|, n);
    }
  }

  lemma TruesSnoc(n: nat)
    ensures Trues(n + 1) == Trues(n) + [true]
  {}

  lemma TakeOneMore(args: seq<string>, before: seq<bool>, n: nat)
    requires n == |before| < |args|
    ensures Select(args, before + [true], true) == Select(args, before, true) + [args[n]]
    ensures Select(args, before + [true], false) == Select(args, before, false)
  {
    SelectSnoc(args, before, true, true);
    SelectSnoc(args, before, true, false);
  }

  lemma MoreTaken(args: seq<string>, opts: seq<string>, from: nat, n: nat)
    requires from <= n < |args|
    ensures opts + args[from..n] + [args[n]] == opts + args[from..n + 1]
  {}

  lemma {:induction false} SelectSizes(args: seq<string>, kinds: seq<bool>)
    requires |kinds| <= |args|
    ensures |Select(args, kinds, true)| + |Select(args, kinds, false)| == |kinds|
  {
    if kinds != [] {
      SelectSizes(args, kinds[..|kinds| - 1]);
    }
  }

  lemma {:induction false} SelectItems(args: seq<string>, kinds: seq<bool>)
    requires |kinds| <= |args|
    ensures multiset(Select(args, kinds, true)) + multiset(Select(args, kinds, false)) == multiset(args[..|kinds|])
  {
    if kinds == [] {
      assert args[..0] == [];
    } else {
      var n := |kinds| - 1;
      SelectItems(args, kinds[..n]);
      assert kinds == kinds[..n] + [kinds[n]];
      SelectOneMore(args, kinds[..n], kinds[n]);
      MultisetSnoc(args[..n], args[n]);
      assert args[..n + 1] == args[..n] + [args[n]];
    }
  }

  lemma SelectOneMore(args: seq<string>, kinds: seq<bool>, k: bool)
    requires |kinds| < |args|
    ensures multiset(Select(args, kinds + [k], true)) + multiset(Select(args, kinds + [k], false)) ==
            multiset(Select(args, kinds, true)) + multiset(Select(args, kinds, false)) + multiset{args[|kinds|]}
  {
    var yes, no, x := Select(args, kinds, true), Select(args, kinds, false), args[|kinds|];
    SelectSnoc(args, kinds, k, true);
    SelectSnoc(args, kinds, k, false);
    if k {
      assert no + [] == no;
      MultisetSnoc(yes, x);
    } else {
      assert yes + [] == yes;
      MultisetSnoc(no, x);
    }
  }

  lemma MultisetSnoc<T>(s: seq<T>, x: T)
    ensures multiset(s + [x]) == multiset(s) + multiset{x}
  {}

  /**
   The argument vector while scanning: options found before the first non-option, the
   non-options skipped so far, the options found after them, and what is not yet read.
   */
  ghost predicate Regions(argv: seq<string>, orig: seq<string>, kinds: seq<bool>, first: nat) {
    && |orig| > 0 && |kinds| < |orig|
    && var opts, nons := Select(orig[1..], kinds, true), Select(orig[1..], kinds, false);
       first <= |opts| && argv == orig[..1] + opts[..first] + nons + opts[first..] + orig[1 + |kinds|..]
  }

  /** The final layout: options, then non-options, then unread arguments; optind is the first non-option. */
  ghost predicate Partitioned(argv: seq<string>, orig: seq<string>, kinds: seq<bool>, optind: nat) {
    && |orig| > 0 && |kinds| < |orig|
    && var opts, nons := Select(orig[1..], kinds, true), Select(orig[1..], kinds, false);
       argv == orig[..1] + opts + nons + orig[1 + |kinds|..] && optind == 1 + |opts|
  }

  /**
   The scanner's indices: -1 while nothing was skipped; nonoptEnd is -1 unless an option was
   met behind the skipped non-options.
   */
  ghost predicate State(argv: seq<string>, orig: seq<string>, kinds: seq<bool>, optind: nat, ns: int, ne: int) {
    && 1 <= optind <= |orig| == |argv| && |kinds| == optind - 1
    && var opts, nons := Select(orig[1..], kinds, true), Select(orig[1..], kinds, false);
       if ns == -1 then ne == -1 && nons == [] && argv == orig
       else
         && 1 <= ns && nons != [] && Regions(argv, orig, kinds, ns - 1)
         && (if ne == -1 then ns - 1 == |opts| else ne == ns + |nons|)
  }

  /** Options were met behind the skipped non-options. */
  ghost predicate Behind(orig: seq<string>, kinds: seq<bool>, ns: int, ne: int)
    requires |kinds| < |orig|
  {
    ne != -1 && ns - 1 < |Select(orig[1..], kinds, true)|
  }

  lemma SkipFirst(argv: seq<string>, orig: seq<string>, kinds: seq<bool>, optind: nat)
    requires State(argv, orig, kinds, optind, -1, -1) && optind < |orig|
    ensures State(argv, orig, kinds + [false], optind + 1, optind, -1)
  {
    SelectSizes(orig[1..], kinds);
    OnlyOptions(orig, kinds);
    OneMoreNon(argv, orig, kinds);
  }

  lemma SkipMore(argv: seq<string>, orig: seq<string>, kinds: seq<bool>, optind: nat, ns: int)
    requires State(argv, orig, kinds, optind, ns, -1) && ns != -1 && optind < |orig|
    ensures State(argv, orig, kinds + [false], optind + 1, ns, -1)
  {
    SelectSizes(orig[1..], kinds);
    Together(orig, Select(orig[1..], kinds, true), Select(orig[1..], kinds, false), optind);
    OneMoreNon(argv, orig, kinds);
  }

  lemma MoveTogether(argv: seq<string>, orig: seq<string>, kinds: seq<bool>, optind: nat, ns: int, ne: int)
    requires State(argv, orig, kinds, optind, ns, ne) && Behind(orig, kinds, ns, ne)
    ensures 1 <= ns <= ne < optind <= |argv| == |orig|
    ensures Partitioned(Exchanged(argv, ns, ne, optind), orig, kinds, optind - (ne - ns))
  {
    SelectSizes(orig[1..], kinds);
    ExchangeRegions(argv, orig, Select(orig[1..], kinds, true), Select(orig[1..], kinds, false), ns - 1, optind);
  }

  lemma SkipMoved(argv: seq<string>, orig: seq<string>, kinds: seq<bool>, optind: nat, ns: nat)
    requires Partitioned(argv, orig, kinds, ns) && optind == |kinds| + 1 < |orig|
    ensures State(argv, orig, kinds + [false], optind + 1, ns, -1)
  {
    SelectSizes(orig[1..], kinds);
    OneMoreNon(argv, orig, kinds);
  }

  lemma TakeOptions(argv: seq<string>, orig: seq<string>, kinds: seq<bool>, optind: nat, ns: int, ne: int, taken: nat)
    requires State(argv, orig, kinds, optind, ns, ne) && optind + taken <= |orig| && taken > 0
    requires ns != -1 ==> ne != -1
    ensures State(argv, orig, kinds + Trues(taken), optind + taken, ns, ne)
    ensures ne != -1 ==> Behind(orig, kinds + Trues(taken), ns, ne)
  {
    var opts, nons := Select(orig[1..], kinds, true), Select(orig[1..], kinds, false);
    SelectTaken(orig[1..], kinds, taken);
    assert orig[1..][|kinds|..|kinds| + taken] == orig[optind..optind + taken];
    if ns != -1 {
      TakeRegions(argv, orig, opts, nons, ns - 1, optind, taken);
      assert Regions(argv, orig, kinds + Trues(taken), ns - 1);
    }
  }

  lemma TakeRegions(argv: seq<string>, orig: seq<string>, opts: seq<string>, nons: seq<string>, first: nat, optind: nat, taken: nat)
    requires 1 <= optind && optind + taken <= |orig| && first <= |opts|
    requires argv == orig[..1] + opts[..first] + nons + opts[first..] + orig[optind..]
    ensures var more := opts + orig[optind..optind + taken];
            argv == orig[..1] + more[..first] + nons + more[first..] + orig[optind + taken..]
  {
    var more := opts + orig[optind..optind + taken];
    assert more[..first] == opts[..first];
    assert more[first..] == opts[first..] + orig[optind..optind + taken];
    assert orig[optind..] == orig[optind..optind + taken] + orig[optind + taken..];
  }

  /** With nothing skipped the options read so far are simply the arguments read so far. */
  lemma {:induction false} OnlyOptions(orig: seq<string>, kinds: seq<bool>)
    requires |kinds| < |orig| && Select(orig[1..], kinds, false) == []
    ensures Select(orig[1..], kinds, true) == orig[1..1 + |kinds|]
    ensures orig == orig[..1] + Select(orig[1..], kinds, true) + Select(orig[1..], kinds, false) + orig[1 + |kinds|..]
  {
    if kinds != [] {
      var n := |kinds| - 1;
      OnlyOptions(orig, kinds[..n]);
      assert orig[1..1 + |kinds|] == orig[1..1 + n] + [orig[1..][n]];
    }
  }

  /** What has not been read is where it was. */
  lemma Unread(argv: seq<string>, orig: seq<string>, kinds: seq<bool>, optind: nat, ns: int, ne: int)
    requires State(argv, orig, kinds, optind, ns, ne)
    ensures argv[optind..] == orig[optind..]
    ensures optind < |orig| ==> argv[optind] == orig[optind] && argv[optind + 1..] == orig[optind + 1..]
  {
    SelectSizes(orig[1..], kinds);
    assert argv[optind..] == orig[optind..];
    assert optind < |orig| ==> argv[optind] == argv[optind..][0] && argv[optind + 1..] == argv[optind..][1..];
    assert optind < |orig| ==> orig[optind] == orig[optind..][0] && orig[optind + 1..] == orig[optind..][1..];
  }

  /** An option behind skipped non-options marks where they end. */
  lemma MarkEnd(argv: seq<string>, orig: seq<string>, kinds: seq<bool>, optind: nat, ns: int)
    requires State(argv, orig, kinds, optind, ns, -1) && ns != -1
    ensures State(argv, orig, kinds, optind, ns, optind)
  {
    SelectSizes(orig[1..], kinds);
  }

  lemma Settle(argv: seq<string>, orig: seq<string>, kinds: seq<bool>, optind: nat, ns: int)
    requires State(argv, orig, kinds, optind, ns, -1)
    ensures Partitioned(argv, orig, kinds, if ns == -1 then optind else ns)
  {
    SelectSizes(orig[1..], kinds);
    if ns == -1 {
      OnlyOptions(orig, kinds);
    } else {
      Together(orig, Select(orig[1..], kinds, true), Select(orig[1..], kinds, false), optind);
    }
  }

  /** The reference scan from a point on, with the kinds found before put in front. */
  ghost function WholeOf(cfg: Config, orig: seq<string>, kinds: seq<bool>, optind: nat, place: string): Scan
    requires optind <= |orig| && (place != "" ==> optind < |orig|)
  {
    var r := ScanFrom(cfg, orig[optind..], place);
    r.(kinds := kinds + r.kinds)
  }

  lemma ScanNonOption(cfg: Config, orig: seq<string>, kinds: seq<bool>, optind: nat)
    requires optind < |orig| && NonOption(cfg, orig[optind])
    ensures WholeOf(cfg, orig, kinds + [false], optind + 1, "") == WholeOf(cfg, orig, kinds, optind, "")
  {
    var r := ScanFrom(cfg, orig[optind + 1..], "");
    assert orig[optind..][1..] == orig[optind + 1..];
    assert kinds + [false] + r.kinds == kinds + ([false] + r.kinds);
  }

  lemma AtVectorEnd(cfg: Config, orig: seq<string>, kinds: seq<bool>, optind: nat)
    requires optind == |orig|
    ensures WholeOf(cfg, orig, kinds, optind, "") == Scan([], kinds, AtEnd)
  {
    assert orig[optind..] == [];
    assert kinds + [] == kinds;
  }

  lemma ScanOption(cfg: Config, orig: seq<string>, kinds: seq<bool>, optind: nat)
    requires optind < |orig| && !NonOption(cfg, orig[optind])
    ensures orig[optind] == "--" ==> WholeOf(cfg, orig, kinds, optind, "") == Scan([], kinds + [true], AtDashes)
    ensures orig[optind] != "--" ==>
              WholeOf(cfg, orig, kinds, optind, FirstLetters(orig[optind])) == WholeOf(cfg, orig, kinds, optind, "")
  {}

  /** A scan that reports one event first, and is another scan from there on. */
  ghost predicate ReportsFirst(whole: Scan, event: Event, after: Scan) {
    whole == after.(events := [event] + after.events)
  }

  /** The scan that is left behind a letter. */
  ghost function AfterLetter(cfg: Config, orig: seq<string>, kinds: seq<bool>, optind: nat, rest: string, taken: nat): Scan
    requires optind < |orig| && optind + taken <= |orig|
  {
    if rest != "" then WholeOf(cfg, orig, kinds, optind, rest)
    else WholeOf(cfg, orig, kinds + Trues(taken), optind + taken, "")
  }

  /** A step inside a word is what the scan does there first. */
  ghost predicate IsStep(cfg: Config, orig: seq<string>, kinds: seq<bool>, optind: nat, place: string, step: Step)
    requires optind < |orig|
  {
    match step
    case Dash => WholeOf(cfg, orig, kinds, optind, place) == Scan([], kinds, AtDash)
    case Letter(event, rest, taken) =>
      && optind + taken <= |orig| && (if rest == "" then taken > 0 else |rest| < |place|)
      && ReportsFirst(WholeOf(cfg, orig, kinds, optind, place), event, AfterLetter(cfg, orig, kinds, optind, rest, taken))
  }

  lemma ScanLetter(cfg: Config, orig: seq<string>, kinds: seq<bool>, optind: nat, place: string)
    requires optind < |orig| && place != ""
    ensures IsStep(cfg, orig, kinds, optind, place, LetterStep(cfg, place, |place| == |orig[optind]|, orig[optind + 1..]))
  {
    var args := orig[optind..];
    assert args[0] == orig[optind] && args[1..] == orig[optind + 1..];
    match LetterStep(cfg, place, |place| == |orig[optind]|, orig[optind + 1..])
    case Dash =>
    case Letter(event, rest, taken) =>
      if rest == "" {
        var r := ScanFrom(cfg, orig[optind + taken..], "");
        assert args[taken..] == orig[optind + taken..];
        assert kinds + Trues(taken) + r.kinds == kinds + (Trues(taken) + r.kinds);
      }
  }

  class Scanner {
    const cfg: Config
    const nargv: array<string>
    var optind: nat
    var place: string
    var nonoptStart: int
    var nonoptEnd: int
    ghost var orig: seq<string>
    ghost var kinds: seq<bool>

    ghost predicate Valid()
      reads this, nargv
    {
      && State(nargv[..], orig, kinds, optind, nonoptStart, nonoptEnd)
      && (place != "" ==> optind < |orig| && |place| <= |orig[optind]| && (nonoptStart != -1 ==> nonoptEnd != -1))
      && (place == "" && nonoptEnd != -1 ==> Behind(orig, kinds, nonoptStart, nonoptEnd))
    }

    /** The reference scan of the whole vector, less the events already reported. */
    ghost function Whole(): Scan
      requires Valid()
      reads this, nargv
    {
      WholeOf(cfg, orig, kinds, optind, place)
    }

    constructor (cfg: Config, nargv: array<string>)
      requires nargv.Length > 0
      ensures Valid() && this.cfg == cfg && this.nargv == nargv && orig == nargv[..] && fresh(this)
      ensures Whole() == ScanFrom(cfg, orig[1..], "")
    {
      this.cfg, this.nargv := cfg, nargv;
      optind, place, nonoptStart, nonoptEnd := 1, "", -1, -1;
      orig, kinds := nargv[..], [];
      new;
      assert [] + ScanFrom(cfg, orig[1..], "").kinds == ScanFrom(cfg, orig[1..], "").kinds;
    }

    /** Makes the next argument a skipped non-option, moving options found after earlier ones in front. */
    method SetAside()
      requires State(nargv[..], orig, kinds, optind, nonoptStart, nonoptEnd) && optind < nargv.Length
      requires nonoptEnd != -1 ==> Behind(orig, kinds, nonoptStart, nonoptEnd)
      modifies `nonoptStart, `nonoptEnd, nargv
      ensures State(nargv[..], orig, kinds + [false], optind + 1, nonoptStart, nonoptEnd) && nonoptEnd == -1
    {
      if nonoptStart == -1 {
        SkipFirst(nargv[..], orig, kinds, optind);
        nonoptStart := optind;
      } else if nonoptEnd != -1 {
        MoveBehind();
        SkipMoved(nargv[..], orig, kinds, optind, nonoptStart);
      } else {
        SkipMore(nargv[..], orig, kinds, optind, nonoptStart);
      }
    }

    /** Exchanges the skipped non-options with the options found after them. */
    method MoveBehind()
      requires State(nargv[..], orig, kinds, optind, nonoptStart, nonoptEnd) && optind < nargv.Length
      requires nonoptStart != -1 && nonoptEnd != -1 && Behind(orig, kinds, nonoptStart, nonoptEnd)
      modifies `nonoptStart, `nonoptEnd, nargv
      ensures nonoptStart >= 0 && nonoptEnd == -1 && Partitioned(nargv[..], orig, kinds, nonoptStart)
    {
      MoveTogether(nargv[..], orig, kinds, optind, nonoptStart, nonoptEnd);
      PermuteArgs(nonoptStart, nonoptEnd, optind, nargv);
      nonoptStart := optind - (nonoptEnd - nonoptStart);
      nonoptEnd := -1;
    }

    method SkipNonOption()
      requires Valid() && place == "" && optind < nargv.Length
      modifies this, nargv
      ensures orig == old(orig) && kinds == old(kinds) + [false] && optind == old(optind) + 1
      ensures Valid() && place == ""
    {
      SetAside();
      kinds := kinds + [false];
      optind := optind + 1;
    }

    /** The permutation at the end of the scan, if one is needed. */
    method Finish()
      requires State(nargv[..], orig, kinds, optind, nonoptStart, nonoptEnd)
      requires nonoptEnd != -1 ==> Behind(orig, kinds, nonoptStart, nonoptEnd)
      modifies this, nargv
      ensures orig == old(orig) && kinds == old(kinds)
      ensures Partitioned(nargv[..], orig, kinds, optind)
    {
      if nonoptEnd != -1 {
        MoveTogether(nargv[..], orig, kinds, optind, nonoptStart, nonoptEnd);
        PermuteArgs(nonoptStart, nonoptEnd, optind, nargv);
        optind := optind - (nonoptEnd - nonoptStart);
      } else {
        Settle(nargv[..], orig, kinds, optind, nonoptStart);
        if nonoptStart != -1 {
          optind := nonoptStart;
        }
      }
      nonoptStart, nonoptEnd := -1, -1;
    }

    /** The next argument is an option: non-options skipped before it end here. */
    method MarkOption()
      requires Valid() && place == "" && optind < nargv.Length
      modifies `nonoptEnd
      ensures State(nargv[..], orig, kinds, optind, nonoptStart, nonoptEnd) && (nonoptStart != -1 ==> nonoptEnd != -1)
    {
      if nonoptStart != -1 && nonoptEnd == -1 {
        MarkEnd(nargv[..], orig, kinds, optind, nonoptStart);
        nonoptEnd := optind;
      }
    }

    /** Uses up arguments that belong to an option. */
    method Take(taken: nat)
      requires State(nargv[..], orig, kinds, optind, nonoptStart, nonoptEnd) && (nonoptStart != -1 ==> nonoptEnd != -1)
      requires 0 < taken && optind + taken <= nargv.Length
      modifies `optind, `kinds
      ensures optind == old(optind) + taken && kinds == old(kinds) + Trues(taken)
      ensures State(nargv[..], orig, kinds, optind, nonoptStart, nonoptEnd)
      ensures nonoptEnd != -1 ==> Behind(orig, kinds, nonoptStart, nonoptEnd)
    {
      TakeOptions(nargv[..], orig, kinds, optind, nonoptStart, nonoptEnd, taken);
      optind := optind + taken;
      kinds := kinds + Trues(taken);
    }

    /** The end of the scan: at the end of the vector, or behind "--". */
    ghost predicate Finished(whole: Scan)
      reads this, nargv
    {
      whole == Scan([], kinds, whole.stop) && whole.stop != AtDash && Partitioned(nargv[..], orig, kinds, optind)
    }

    /** Skips to the next option word, or to the end. */
    method SkipNonOptions()
      requires Valid() && place == ""
      modifies this, nargv
      ensures orig == old(orig) && Valid() && place == "" && Whole() == old(Whole()) && optind >= old(optind)
      ensures optind < nargv.Length ==> !NonOption(cfg, orig[optind])
    {
      var skipping := true;
      while skipping
        invariant orig == old(orig) && Valid() && place == "" && Whole() == old(Whole()) && optind >= old(optind)
        invariant !skipping && optind < nargv.Length ==> !NonOption(cfg, orig[optind])
        decreases skipping, nargv.Length - optind
      {
        skipping := SkipOne();
      }
    }

    /** Skips the next argument if it is a non-option. */
    method SkipOne() returns (skipped: bool)
      requires Valid() && place == ""
      modifies this, nargv
      ensures orig == old(orig) && Valid() && place == "" && Whole() == old(Whole())
      ensures optind == old(optind) + if skipped then 1 else 0
      ensures !skipped && optind < nargv.Length ==> !NonOption(cfg, orig[optind])
      ensures skipped ==> optind <= nargv.Length
    {
      if optind < nargv.Length {
        var word := CurrentWord();
        if NonOption(cfg, word) {
          ScanNonOption(cfg, orig, kinds, optind);
          SkipNonOption();
          return true;
        }
      }
      skipped := false;
    }

    /** Moves on to the letters of the next option word; false if the scan is over. */
    method NextWord() returns (more: bool)
      requires Valid() && place == ""
      modifies this, nargv
      ensures orig == old(orig)
      ensures more ==> Valid() && place != "" && Whole() == old(Whole()) && optind >= old(optind)
      ensures !more ==> Finished(old(Whole()))
    {
      SkipNonOptions();
      if optind >= nargv.Length {
        AtVectorEnd(cfg, orig, kinds, optind);
        Finish();
        return false;
      }
      ScanOption(cfg, orig, kinds, optind);
      var word := CurrentWord();
      more := BeginOption(word);
    }

    method BeginOption(word: string) returns (more: bool)
      requires Valid() && place == "" && optind < nargv.Length && word == orig[optind] && !NonOption(cfg, word)
      modifies this, nargv
      ensures orig == old(orig)
      ensures more ==> Valid() && optind == old(optind) && kinds == old(kinds) && place == FirstLetters(word) && word != "--"
      ensures !more ==> word == "--" && kinds == old(kinds) + [true] && Partitioned(nargv[..], orig, kinds, optind)
    {
      MarkOption();
      if word == "--" {
        assert Trues(1) == [true];
        Take(1);
        Finish();
        return false;
      }
      place := FirstLetters(word);
      return true;
    }

    method CurrentStep() returns (step: Step)
      requires Valid() && place != ""
      ensures IsStep(cfg, orig, kinds, optind, place, step)
    {
      var word := CurrentWord();
      var next := NextWords();
      ScanLetter(cfg, orig, kinds, optind, place);
      step := LetterStep(cfg, place, |place| == |word|, next);
    }

    method NextWords() returns (next: seq<string>)
      requires Valid() && optind < nargv.Length
      ensures optind < |orig| && next == orig[optind + 1..]
    {
      Unread(nargv[..], orig, kinds, optind, nonoptStart, nonoptEnd);
      assert nargv[optind + 1..] == nargv[..][optind + 1..];
      next := nargv[optind + 1..];
    }

    method CurrentWord() returns (word: string)
      requires Valid() && optind < nargv.Length
      ensures word == orig[optind]
    {
      Unread(nargv[..], orig, kinds, optind, nonoptStart, nonoptEnd);
      assert nargv[optind] == nargv[..][optind];
      word := nargv[optind];
    }

    /** Goes on behind a letter, or behind the arguments used up. */
    method Advance(rest: string, taken: nat)
      requires Valid() && place != "" && optind < |orig|
      requires optind + taken <= |orig| && if rest == "" then taken > 0 else |rest| < |place|
      modifies `place, `optind, `kinds
      ensures Valid() && place == rest && Whole() == old(AfterLetter(cfg, orig, kinds, optind, rest, taken))
      ensures optind == old(optind) + if rest == "" then taken else 0
    {
      if rest == "" {
        Take(taken);
      }
      place := rest;
    }

    /** Processes one letter, or the rest of a word that is a long option. */
    method ReadLetter() returns (e: Option<Event>)
      requires Valid() && place != ""
      modifies `place, `optind, `kinds
      ensures e.Some? ==> Valid() && ReportsFirst(old(Whole()), e.value, Whole())
      ensures e.Some? ==> optind > old(optind) || (optind == old(optind) && 0 < |place| < |old(place)|)
      ensures e.None? ==> old(Whole()) == Scan([], kinds, AtDash) && kinds == old(kinds) && optind == old(optind)
    {
      var step := CurrentStep();
      match step
      case Dash =>
        place := "";
        return None;
      case Letter(event, rest, taken) =>
        Advance(rest, taken);
        return Some(event);
    }

    /**
     One call: the next event, or None at the end. A dash as the last letter of a word ends
     the scan as well, but nothing is permuted then.
     */
    method Next() returns (e: Option<Event>)
      requires Valid()
      modifies this, nargv
      ensures orig == old(orig)
      ensures e.Some? ==> Valid() && ReportsFirst(old(Whole()), e.value, Whole())
      ensures e.Some? ==> optind > old(optind) || (optind == old(optind) && old(place) == "" && place != "")
                          || (optind == old(optind) && 0 < |place| < |old(place)|)
      ensures e.None? && old(Whole()).stop != AtDash ==> Finished(old(Whole()))
      ensures e.None? && old(Whole()).stop == AtDash ==>
                old(Whole()) == Scan([], kinds, AtDash) && State(nargv[..], orig, kinds, optind, nonoptStart, nonoptEnd)
    {
      if place == "" {
        var more := NextWord();
        if !more { return None; }
      }
      e := ReadLetter();
    }
  }

  /** Exchanging the skipped non-options with the options behind them. */
  lemma ExchangeRegions(argv: seq<string>, orig: seq<string>, opts: seq<string>, nons: seq<string>, first: nat, optind: nat)
    requires 1 <= optind <= |orig| && first <= |opts| && |opts| + |nons| == optind - 1
    requires argv == orig[..1] + opts[..first] + nons + opts[first..] + orig[optind..]
    ensures var start, end := 1 + first, 1 + first + |nons|;
            argv[..start] + argv[end..optind] + argv[start..end] + argv[optind..] == orig[..1] + opts + nons + orig[optind..]
  {
    FourParts(orig[..1] + opts[..first], nons, opts[first..], orig[optind..]);
    assert opts == opts[..first] + opts[first..];
    Associates(orig[..1], opts[..first], opts[first..]);
  }

  lemma FourParts<T>(a: seq<T>, b: seq<T>, c: seq<T>, d: seq<T>)
    ensures var s := a + b + c + d;
            s[..|a|] == a && s[|a|..|a| + |b|] == b && s[|a| + |b|..|a| + |b| + |c|] == c && s[|a| + |b| + |c|..] == d
  {}

  /** Nothing skipped, or nothing found after it: the options stand together. */
  lemma Together(orig: seq<string>, opts: seq<string>, nons: seq<string>, optind: nat)
    requires 1 <= optind <= |orig| && |opts| + |nons| == optind - 1
    ensures orig[..1] + opts[..|opts|] + nons + opts[|opts|..] + orig[optind..] == orig[..1] + opts + nons + orig[optind..]
  {
    assert opts[..|opts|] == opts && opts[|opts|..] == [];
  }

  /** The next unread argument joins the non-options in front of it. */
  lemma OneMoreNon(argv: seq<string>, orig: seq<string>, kinds: seq<bool>)
    requires |kinds| + 1 < |orig|
    requires var opts, nons := Select(orig[1..], kinds, true), Select(orig[1..], kinds, false);
             argv == orig[..1] + opts + nons + orig[1 + |kinds|..]
    ensures Regions(argv, orig, kinds + [false], |Select(orig[1..], kinds, true)|)
    ensures Select(orig[1..], kinds + [false], true) == Select(orig[1..], kinds, true)
    ensures |Select(orig[1..], kinds + [false], false)| == |Select(orig[1..], kinds, false)| + 1
  {
    SelectSnoc(orig[1..], kinds, false, true);
    SelectSnoc(orig[1..], kinds, false, false);
    SelectSizes(orig[1..], kinds);
    MoveBar(orig, Select(orig[1..], kinds, true), Select(orig[1..], kinds, false), 1 + |kinds|);
  }

  lemma MoveBar(orig: seq<string>, opts: seq<string>, nons: seq<string>, k: nat)
    requires 1 <= k < |orig|
    ensures orig[..1] + opts + nons + orig[k..]
            == orig[..1] + opts[..|opts|] + (nons + [orig[1..][k - 1]]) + opts[|opts|..] + orig[k + 1..]
  {
    assert opts[..|opts|] == opts && opts[|opts|..] == [];
    assert orig[k..] == [orig[1..][k - 1]] + orig[k + 1..];
  }

  // ----- a whole run

  lemma SameArguments(argv: seq<string>, orig: seq<string>, kinds: seq<bool>, first: nat)
    requires Regions(argv, orig, kinds, first)
    ensures multiset(argv) == multiset(orig)
  {
    var opts, nons := Select(orig[1..], kinds, true), Select(orig[1..], kinds, false);
    SelectItems(orig[1..], kinds);
    MultisetParts(orig[..1], opts[..first], nons, opts[first..], orig[1 + |kinds|..]);
    MultisetSplit(opts, first);
    MultisetSplit(orig[1..], |kinds|);
    MultisetSplit(orig, 1);
    DropDrop(orig, 1, |kinds|);
  }

  lemma MultisetSplit<T>(s: seq<T>, i: nat)
    requires i <= |s|
    ensures multiset(s) == multiset(s[..i]) + multiset(s[i..])
  {
    assert s == s[..i] + s[i..];
  }

  lemma MultisetParts<T>(a: seq<T>, b: seq<T>, c: seq<T>, d: seq<T>, e: seq<T>)
    ensures multiset(a + b + c + d + e) == multiset(a) + multiset(b) + multiset(c) + multiset(d) + multiset(e)
  {
    assert multiset(a + b + c + d + e) == multiset(a + b + c + d) + multiset(e);
    assert multiset(a + b + c + d) == multiset(a + b + c) + multiset(d);
    assert multiset(a + b + c) == multiset(a + b) + multiset(c);
  }

  lemma PartitionedIsRegions(argv: seq<string>, orig: seq<string>, kinds: seq<bool>, optind: nat)
    requires Partitioned(argv, orig, kinds, optind)
    ensures Regions(argv, orig, kinds, |Select(orig[1..], kinds, true)|)
  {
    var opts := Select(orig[1..], kinds, true);
    assert opts[..|opts|] == opts && opts[|opts|..] == [];
  }

  /**
   The final vector is a permutation of the original; it is partitioned unless a dash ended
   the scan behind a non-option.
   */
  ghost predicate Arranged(argv: seq<string>, orig: seq<string>, scan: Scan, optind: nat) {
    && multiset(argv) == multiset(orig)
    && (Partitioned(argv, orig, scan.kinds, optind) <==> scan.stop != AtDash || false !in scan.kinds)
  }

  /** A scan that ends at a dash leaves the layout of an unfinished scan. */
  lemma DashLayout(argv: seq<string>, orig: seq<string>, events: seq<Event>, kinds: seq<bool>, optind: nat, ns: int, ne: int)
    requires State(argv, orig, kinds, optind, ns, ne)
    ensures Arranged(argv, orig, Scan(events, kinds, AtDash), optind)
  {
    var opts, nons := Select(orig[1..], kinds, true), Select(orig[1..], kinds, false);
    SelectSizes(orig[1..], kinds);
    NoneSkipped(orig[1..], kinds);
    if ns == -1 { OnlyOptions(orig, kinds); } else { SameArguments(argv, orig, kinds, ns - 1); }
  }

  lemma FinalLayout(argv: seq<string>, orig: seq<string>, scan: Scan, optind: nat)
    requires Partitioned(argv, orig, scan.kinds, optind) && scan.stop != AtDash
    ensures Arranged(argv, orig, scan, optind)
  {
    PartitionedIsRegions(argv, orig, scan.kinds, optind);
    SameArguments(argv, orig, scan.kinds, optind - 1);
  }

  lemma {:induction false} NoneSkipped(args: seq<string>, kinds: seq<bool>)
    requires |kinds| <= |args|
    ensures Select(args, kinds, false) == [] <==> false !in kinds
  {
    if kinds != [] {
      var n := |kinds| - 1;
      NoneSkipped(args, kinds[..n]);
      assert kinds == kinds[..n] + [kinds[n]];
    }
  }

  /**
   Calls the scanner until it reports the end. The events are those of the reference scan of
   the original vector, and the vector is arranged.
   */
  method ScanAll(cfg: Config, nargv: array<string>) returns (events: seq<Event>, optind: nat)
    requires nargv.Length > 0
    modifies nargv
    ensures var orig := old(nargv[..]);
            var scan := ScanFrom(cfg, orig[1..], "");
            events == scan.events && Arranged(nargv[..], orig, scan, optind)
  {
    var scanner := new Scanner(cfg, nargv);
    ghost var orig, whole := nargv[..], scanner.Whole();
    events := [];
    assert whole.events == events + whole.events;
    var more := true;
    while more
      invariant fresh(scanner) && scanner.nargv == nargv && scanner.cfg == cfg && scanner.orig == orig
      invariant more ==> scanner.Valid() && Reported(whole, events, scanner.Whole())
      invariant !more ==> whole.events == events && Arranged(nargv[..], orig, whole, scanner.optind)
      decreases more, nargv.Length - scanner.optind, if scanner.place == "" then 1 else 0, |scanner.place|
    {
      events, more := OneCall(scanner, whole, events);
    }
    optind := scanner.optind;
  }

  ghost predicate Reported(whole: Scan, events: seq<Event>, rest: Scan) {
    whole == rest.(events := events + rest.events)
  }

  lemma NothingMore(whole: Scan, events: seq<Event>, rest: Scan)
    requires Reported(whole, events, rest)
    ensures rest.events == [] ==> whole == rest.(events := events)
  {
    assert events + [] == events;
  }

  method OneCall(scanner: Scanner, ghost whole: Scan, events: seq<Event>) returns (events': seq<Event>, more: bool)
    requires scanner.Valid() && Reported(whole, events, scanner.Whole())
    modifies scanner, scanner.nargv
    ensures scanner.orig == old(scanner.orig)
    ensures more ==> scanner.Valid() && Reported(whole, events', scanner.Whole())
    ensures more ==> scanner.optind > old(scanner.optind) ||
                     (scanner.optind == old(scanner.optind) && scanner.place != "" &&
                      (old(scanner.place) == "" || |scanner.place| < |old(scanner.place)|))
    ensures !more ==> whole.events == events' && Arranged(scanner.nargv[..], scanner.orig, whole, scanner.optind)
  {
    ghost var rest := scanner.Whole();
    var e := scanner.Next();
    if e.None? {
      NothingMore(whole, events, rest);
      if rest.stop == AtDash {
        DashLayout(scanner.nargv[..], scanner.orig, events, scanner.kinds, scanner.optind, scanner.nonoptStart, scanner.nonoptEnd);
      } else {
        FinalLayout(scanner.nargv[..], scanner.orig, whole, scanner.optind);
      }
      return events, false;
    }
    Associates(events, [e.value], scanner.Whole().events);
    return events + [e.value], true;
  }

  /** With long options, or with '-' among the option letters, a dash never ends the scan. */
  lemma {:induction false} NoDash(cfg: Config, args: seq<string>, place: string)
    requires cfg.long.Some? || '-' in cfg.options
    requires place != "" ==> args != [] && |place| <= |args[0]| && (|place| == |args[0]| ==> '-' in cfg.options)
    ensures ScanFrom(cfg, args, place).stop != AtDash
    decreases |args|, if place == "" then 1 else 0, |place|
  {
    if place == "" {
      if args != [] {
        if NonOption(cfg, args[0]) {
          NoDash(cfg, args[1..], "");
        } else if args[0] != "--" {
          NoDash(cfg, args, FirstLetters(args[0]));
        }
      }
    } else {
      match LetterStep(cfg, place, |place| == |args[0]|, args[1..])
      case Dash =>
      case Letter(event, rest, taken) =>
        if rest != "" { NoDash(cfg, args, rest); } else { NoDash(cfg, args[taken..], ""); }
    }
  }

  /** What is left behind as a non-option is one. */
  lemma {:induction false} SkippedAreNonOptions(cfg: Config, args: seq<string>, place: string, i: nat)
    requires place != "" ==> args != []
    requires i < |ScanFrom(cfg, args, place).kinds| && !ScanFrom(cfg, args, place).kinds[i]
    ensures NonOption(cfg, args[i])
    decreases |args|, if place == "" then 1 else 0, |place|
  {
    if place == "" {
      if NonOption(cfg, args[0]) {
        if i > 0 { SkippedAreNonOptions(cfg, args[1..], "", i - 1); }
      } else {
        SkippedAreNonOptions(cfg, args, FirstLetters(args[0]), i);
      }
    } else {
      match LetterStep(cfg, place, |place| == |args[0]|, args[1..])
      case Letter(event, rest, taken) =>
        if rest != "" {
          SkippedAreNonOptions(cfg, args, rest, i);
        } else {
          assert i >= taken;
          SkippedAreNonOptions(cfg, args[taken..], "", i - taken);
        }
    }
  }

  /** The word "-a-" ends the scan behind "x", which is left in front of it. */
  lemma DashExample()
    ensures ScanFrom(Config("a", None), ["x", "-a-"], "") == Scan([Short('a', None)], [false], AtDash)
  {
    var cfg := Config("a", None);
    assert ["x", "-a-"][1..] == ["-a-"];
    assert FirstLetters("-a-") == "a-" && "a-"[1..] == "-";
    assert LetterStep(cfg, "a-", false, []) == Letter(Short('a', None), "-", 0);
    assert LetterStep(cfg, "-", false, []) == Dash;
    assert ScanFrom(cfg, ["-a-"], "-") == Scan([], [], AtDash);
    assert ScanFrom(cfg, ["-a-"], "a-") == Scan([Short('a', None)], [], AtDash);
    assert ScanFrom(cfg, ["-a-"], "") == ScanFrom(cfg, ["-a-"], "a-");
  }
}
