/** Option scanning with permutation of the argument vector. */
module Getopt {
  import opened Wrappers
  import opened ArgvExchange

  // ---------------------------------------------------------------- what is recognised

  datatype Ordering = RequireOrder | Permute | ReturnInOrder

  datatype Argument = NoArgument | RequiredArgument | OptionalArgument

  datatype LongOption = LongOption(name: string, argument: Argument)

  /** optstring without an ordering prefix. */
  datatype Settings = Settings(ordering: Ordering, optstring: string, longopts: Option<seq<LongOption>>)

  /** What one call reports to its caller. */
  datatype Event =
    | Short(c: char, arg: Option<string>)
    | Invalid(c: char)
    | MissingArgument(c: char)
    | Long(index: nat, arg: Option<string>)
    | UnwantedArgument(index: nat)
    | MissingLongArgument(index: nat)
    | Ambiguous
    | Unrecognized
    | NonOption(element: string)

  predicate IsNonOption(element: string) {
    element == "" || element[0] != '-' || |element| == 1
  }

  function IndexOf(s: string, c: char): (k: nat)
    ensures k <= |s| && (k < |s| ==> s[k] == c) && forall j :: 0 <= j < k ==> s[j] != c
  {
    if s == "" || s[0] == c then 0 else 1 + IndexOf(s[1..], c)
  }

  predicate Accepted(optstring: string, c: char) {
    c != ':' && IndexOf(optstring, c) < |optstring|
  }

  /** The argument of an accepted short option, by the colons behind it. */
  function ArgumentOf(optstring: string, c: char): Argument {
    var k := IndexOf(optstring, c);
    if k + 1 >= |optstring| || optstring[k + 1] != ':' then NoArgument
    else if k + 2 < |optstring| && optstring[k + 2] == ':' then OptionalArgument
    else RequiredArgument
  }

  // ---------------------------------------------------------------- decoding one element

  /** What an option element reports, and whether it uses up the element behind it. */
  datatype Decoded = Decoded(events: seq<Event>, takesNext: bool)

  /** A cluster of short options. */
  function DecodeShort(rest: string, next: Option<string>, optstring: string): Decoded {
    if rest == "" then Decoded([], false)
    else
      var c, more := rest[0], rest[1..];
      if !Accepted(optstring, c) then
        var d := DecodeShort(more, next, optstring);
        Decoded([Invalid(c)] + d.events, d.takesNext)
      else
        match ArgumentOf(optstring, c)
        case NoArgument =>
          var d := DecodeShort(more, next, optstring);
          Decoded([Short(c, None)] + d.events, d.takesNext)
        case OptionalArgument => Decoded([Short(c, if more != "" then Some(more) else None)], false)
        case RequiredArgument =>
          if more != "" then Decoded([Short(c, Some(more))], false)
          else if next.Some? then Decoded([Short(c, next)], true)
          else Decoded([MissingArgument(c)], false)
  }

  datatype Match = Found(index: nat) | Several | NoMatch

  /** The search through the table: an exact name wins at once, an abbreviation must
      be the only one. */
  function MatchFrom(table: seq<LongOption>, name: string, i: nat, found: Option<nat>, ambiguous: bool): Match
    requires i <= |table|
    decreases |table| - i
  {
    if i == |table| then
      if ambiguous then Several else if found.Some? then Found(found.value) else NoMatch
    else if name <= table[i].name then
      if table[i].name == name then Found(i)
      else if found.None? then MatchFrom(table, name, i + 1, Some(i), ambiguous)
      else MatchFrom(table, name, i + 1, found, true)
    else MatchFrom(table, name, i + 1, found, ambiguous)
  }

  function LongMatch(table: seq<LongOption>, name: string): Match {
    MatchFrom(table, name, 0, None, false)
  }

  function DecodeLong(body: string, next: Option<string>, table: seq<LongOption>): Decoded {
    var k := IndexOf(body, '=');
    match LongMatch(table, body[..k])
    case Several => Decoded([Ambiguous], false)
    case NoMatch => Decoded([Unrecognized], false)
    case Found(i) =>
      if i >= |table| then Decoded([], false)
      else if k < |body| then
        if table[i].argument != NoArgument then Decoded([Long(i, Some(body[k + 1..]))], false)
        else Decoded([UnwantedArgument(i)], false)
      else if table[i].argument == RequiredArgument then
        if next.Some? then Decoded([Long(i, next)], true) else Decoded([MissingLongArgument(i)], false)
      else Decoded([Long(i, None)], false)
  }

  predicate IsLong(element: string, settings: Settings) {
    settings.longopts.Some? && |element| > 1 && element[1] == '-'
  }

  function Decode(element: string, next: Option<string>, settings: Settings): Decoded
    requires !IsNonOption(element)
  {
    if IsLong(element, settings) then DecodeLong(element[2..], next, settings.longopts.value)
    else DecodeShort(element[1..], next, settings.optstring)
  }

  function Second(args: seq<string>): Option<string> {
    if |args| > 1 then Some(args[1]) else None
  }

  /** How many elements an option takes up. */
  function Taken(args: seq<string>, d: Decoded): (k: nat)
    requires args != []
    ensures 1 <= k <= |args|
  {
    if d.takesNext && |args| > 1 then 2 else 1
  }

  // ---------------------------------------------------------------- the whole vector

  /** The elements that belong to options, those left for the caller, and the reports. */
  datatype Scan = Scan(consumed: seq<string>, rest: seq<string>, events: seq<Event>)

  function Before(consumed: seq<string>, rest: seq<string>, events: seq<Event>, s: Scan): Scan {
    Scan(consumed + s.consumed, rest + s.rest, events + s.events)
  }

  /** What scanning comes to, without moving anything. */
  function ScanAll(args: seq<string>, settings: Settings): Scan
    decreases |args|
  {
    if args == [] then Scan([], [], [])
    else if args[0] == "--" then Scan([args[0]], args[1..], [])
    else if IsNonOption(args[0]) then
      match settings.ordering
      case RequireOrder => Scan([], args, [])
      case Permute => Before([], [args[0]], [], ScanAll(args[1..], settings))
      case ReturnInOrder => Before([args[0]], [], [NonOption(args[0])], ScanAll(args[1..], settings))
    else
      var d := Decode(args[0], Second(args), settings);
      var k := Taken(args, d);
      Before(args[..k], [], d.events, ScanAll(args[k..], settings))
  }

  /** Scanning from inside a cluster of short options. */
  function Pending(args: seq<string>, nextchar: string, settings: Settings): Scan {
    if nextchar == "" || args == [] then ScanAll(args, settings)
    else
      var d := DecodeShort(nextchar, Second(args), settings.optstring);
      var k := Taken(args, d);
      Before(args[..k], [], d.events, ScanAll(args[k..], settings))
  }

  /** The elements kept and skipped so far, and what is still to come. */
  function Progress(argv: seq<string>, first: nat, last: nat, optind: nat, nextchar: string, events: seq<Event>,
                    settings: Settings): Scan
    requires 1 <= first <= last <= optind <= |argv|
  {
    Before(argv[1..first] + argv[last..optind], argv[first..last], events, Pending(argv[optind..], nextchar, settings))
  }

  /** Nothing is lost: each element is either used by the options or left over, and
      in each of the two the elements are in their original order. */
  ghost predicate Interleaves(a: seq<string>, b: seq<string>, s: seq<string>)
    decreases |s|
  {
    || (s == [] && a == [] && b == [])
    || (s != [] && a != [] && a[0] == s[0] && Interleaves(a[1..], b, s[1..]))
    || (s != [] && b != [] && b[0] == s[0] && Interleaves(a, b[1..], s[1..]))
  }

  lemma {:induction false} InterleavesFront(front: seq<string>, a: seq<string>, b: seq<string>, s: seq<string>)
    requires Interleaves(a, b, s)
    ensures Interleaves(front + a, b, front + s)
    decreases |front|
  {
    if front == [] {
      assert front + a == a && front + s == s;
    } else {
      InterleavesFront(front[1..], a, b, s);
      assert (front + a)[1..] == front[1..] + a && (front + s)[1..] == front[1..] + s;
    }
  }

  lemma {:induction false} InterleavesRest(s: seq<string>)
    ensures Interleaves([], s, s)
    decreases |s|
  {
    if s != [] {
      InterleavesRest(s[1..]);
    }
  }

  lemma {:induction false} ScanInterleaves(args: seq<string>, settings: Settings)
    ensures var s := ScanAll(args, settings);
            Interleaves(s.consumed, s.rest, args)
    decreases |args|
  {
    hide Decode, Interleaves;
    InterleavesRest([]);
    if args != [] {
      assert args == [args[0]] + args[1..];
      if args[0] == "--" {
        InterleavesRest(args[1..]);
        InterleavesFront([args[0]], [], args[1..], args[1..]);
        assert [args[0]] + [] == [args[0]];
      } else if IsNonOption(args[0]) {
        ScanInterleaves(args[1..], settings);
        var s := ScanAll(args[1..], settings);
        InterleavesRest(args);
        InterleavesFront([args[0]], s.consumed, s.rest, args[1..]);
        InterleavesSkip(args[0], s.consumed, s.rest, args[1..]);
        assert [] + s.rest == s.rest && [] + s.consumed == s.consumed;
      } else {
        var d := Decode(args[0], Second(args), settings);
        var k := Taken(args, d);
        var s := ScanAll(args[k..], settings);
        ScanInterleaves(args[k..], settings);
        InterleavesFront(args[..k], s.consumed, s.rest, args[k..]);
        assert args == args[..k] + args[k..] && [] + s.rest == s.rest;
      }
    }
  }

  lemma InterleavesSkip(e: string, a: seq<string>, b: seq<string>, s: seq<string>)
    requires Interleaves(a, b, s)
    ensures Interleaves(a, [e] + b, [e] + s)
  {
    assert ([e] + b)[1..] == b && ([e] + s)[1..] == s;
  }

  /** The final vector is a permutation of the original one. */
  lemma {:induction false} InterleavesPermutes(a: seq<string>, b: seq<string>, s: seq<string>)
    requires Interleaves(a, b, s)
    ensures multiset(a + b) == multiset(s)
    decreases |s|
  {
    if s != [] {
      assert s == [s[0]] + s[1..];
      if a != [] && a[0] == s[0] && Interleaves(a[1..], b, s[1..]) {
        InterleavesPermutes(a[1..], b, s[1..]);
        assert a + b == [a[0]] + (a[1..] + b);
      } else {
        InterleavesPermutes(a, b[1..], s[1..]);
        assert b == [b[0]] + b[1..];
        assert multiset(a + b) == multiset(a) + multiset(b) && multiset(a + b[1..]) == multiset(a) + multiset(b[1..]);
        assert multiset(b) == multiset([b[0]]) + multiset(b[1..]);
      }
    }
  }

  /** When all elements are permuted and nothing ends the options early, only
      non-options are left over. */
  lemma {:induction false} OnlyNonOptionsLeft(args: seq<string>, settings: Settings)
    requires settings.ordering == Permute && "--" !in args
    ensures forall e :: e in ScanAll(args, settings).rest ==> IsNonOption(e)
    decreases |args|
  {
    hide Decode;
    if args != [] {
      if IsNonOption(args[0]) {
        OnlyNonOptionsLeft(args[1..], settings);
      } else {
        OnlyNonOptionsLeft(args[Taken(args, Decode(args[0], Second(args), settings))..], settings);
      }
    }
  }

  // ---------------------------------------------------------------- long option names

  predicate Abbreviates(table: seq<LongOption>, name: string, j: nat) {
    j < |table| && name <= table[j].name
  }

  predicate Names(table: seq<LongOption>, name: string, j: nat) {
    j < |table| && table[j].name == name
  }

  /** What is known after i table entries. */
  ghost predicate Searched(table: seq<LongOption>, name: string, i: nat, found: Option<nat>, ambiguous: bool) {
    i <= |table| &&
    (forall j: nat :: j < i ==> !Names(table, name, j)) &&
    (found == None ==> !ambiguous && forall j: nat :: j < i ==> !Abbreviates(table, name, j)) &&
    (found.Some? ==> found.value < i && Abbreviates(table, name, found.value)) &&
    (found.Some? && !ambiguous ==> forall j: nat :: j < i && j != found.value ==> !Abbreviates(table, name, j)) &&
    (found.Some? && ambiguous ==> exists j: nat :: j < i && j != found.value && Abbreviates(table, name, j))
  }

  /** An option is found by its exact name, the first if there are several, or by an
      abbreviation of no other; nothing is found if there is no abbreviation. */
  lemma {:induction false} LongMatchFrom(table: seq<LongOption>, name: string, i: nat, found: Option<nat>,
                                         ambiguous: bool)
    requires Searched(table, name, i, found, ambiguous)
    ensures Resolved(table, name, MatchFrom(table, name, i, found, ambiguous))
    decreases |table| - i
  {
    if i < |table| {
      if name <= table[i].name {
        if table[i].name == name {
          assert Names(table, name, i);
        } else if found == None {
          LongMatchFrom(table, name, i + 1, Some(i), ambiguous);
        } else {
          assert Abbreviates(table, name, i);
          LongMatchFrom(table, name, i + 1, found, true);
        }
      } else {
        LongMatchFrom(table, name, i + 1, found, ambiguous);
      }
    }
  }

  ghost predicate Resolved(table: seq<LongOption>, name: string, m: Match) {
    match m
    case Found(i) =>
      && (Names(table, name, i) || (Abbreviates(table, name, i) && forall j: nat :: !Names(table, name, j)))
      && (Names(table, name, i) ==> forall j: nat :: j < i ==> !Names(table, name, j))
      && (!Names(table, name, i) ==> forall j: nat :: j != i ==> !Abbreviates(table, name, j))
    case Several =>
      && (forall j: nat :: !Names(table, name, j))
      && exists i: nat, j: nat :: i != j && Abbreviates(table, name, i) && Abbreviates(table, name, j)
    case NoMatch => forall j: nat :: !Abbreviates(table, name, j)
  }

  lemma LongMatchMeaning(table: seq<LongOption>, name: string)
    ensures Resolved(table, name, LongMatch(table, name))
  {
    hide Resolved;
    LongMatchFrom(table, name, 0, None, false);
  }

  // ---------------------------------------------------------------- the moves of the scanner

  /** Exchanging puts the options of the second block behind those already kept. */
  lemma ExchangeKeeps(argv: seq<string>, first: nat, last: nat, optind: nat, nextchar: string, events: seq<Event>,
                      settings: Settings)
    requires 1 <= first <= last <= optind <= |argv|
    ensures var after := Exchanged(argv, first, last, optind);
            var first' := first + (optind - last);
            after[0] == argv[0] && after[optind..] == argv[optind..]
            && after[1..first'] == argv[1..first] + argv[last..optind] && after[first'..optind] == argv[first..last]
            && Progress(after, first', optind, optind, nextchar, events, settings)
            == Progress(argv, first, last, optind, nextchar, events, settings)
  {
    hide Pending;
    var after := Exchanged(argv, first, last, optind);
    var first' := first + (optind - last);
    assert after[optind..] == argv[optind..];
    assert after[1..first'] == argv[1..first] + argv[last..optind];
    assert after[first'..optind] == argv[first..last];
    assert after[optind..optind] == [];
    assert after[1..first'] + [] == after[1..first'];
  }

  /** With nothing skipped, the two blocks of kept elements are one. */
  lemma NothingSkipped(argv: seq<string>, first: nat, optind: nat, nextchar: string, events: seq<Event>,
                       settings: Settings)
    requires 1 <= first <= optind <= |argv|
    ensures argv[1..first] + argv[first..optind] == argv[1..optind] && argv[first..first] == argv[optind..optind] == []
    ensures Progress(argv, optind, optind, optind, nextchar, events, settings)
         == Progress(argv, first, first, optind, nextchar, events, settings)
  {
    hide Pending;
    assert argv[1..first] + argv[first..optind] == argv[1..optind];
    assert argv[1..optind] + [] == argv[1..optind];
  }

  /** Skipping one more non-option. */
  lemma SkipKeeps(argv: seq<string>, first: nat, optind: nat, events: seq<Event>, settings: Settings)
    requires 1 <= first <= optind < |argv| && settings.ordering == Permute && IsNonOption(argv[optind])
    ensures Progress(argv, first, optind + 1, optind + 1, "", events, settings)
         == Progress(argv, first, optind, optind, "", events, settings)
  {
    hide Decode;
    var tail := argv[optind..];
    assert tail[0] == argv[optind] && tail[1..] == argv[optind + 1..];
    var s := ScanAll(tail[1..], settings);
    assert argv[first..optind + 1] == argv[first..optind] + [argv[optind]];
    assert argv[first..optind] + ([argv[optind]] + s.rest) == argv[first..optind + 1] + s.rest;
    assert [] + s.consumed == s.consumed && [] + s.events == s.events;
  }

  datatype Status = Finished | Passed(element: string) | AtOption

  predicate Bounds(first: nat, last: nat, optind: nat, argc: nat, ordering: Ordering) {
    1 <= first <= last <= optind <= argc && (ordering != Permute ==> first == last)
  }

  /** The state from which the rest of the scan still comes to the same. */
  ghost predicate OnTrack(argv: seq<string>, original: seq<string>, first: nat, last: nat, optind: nat,
                          nextchar: string, events: seq<Event>, settings: Settings)
  {
    Bounds(first, last, optind, |argv|, settings.ordering) && |original| == |argv| && argv[0] == original[0] &&
    Progress(argv, first, last, optind, nextchar, events, settings) == ScanAll(original[1..], settings)
  }

  /** The result of the whole scan. */
  ghost predicate Done(argv: seq<string>, original: seq<string>, optind: nat, events: seq<Event>, settings: Settings) {
    original != [] &&
    var s := ScanAll(original[1..], settings);
    argv == [original[0]] + s.consumed + s.rest && optind == 1 + |s.consumed| && events == s.events
  }

  class Scanner {
    const argv: array<string>
    const settings: Settings
    ghost const original: seq<string>
    var optind: nat
    var firstNonopt: nat
    var lastNonopt: nat
    /** The rest of a cluster of short options; empty between elements. */
    var nextchar: string
    ghost var events: seq<Event>

    ghost predicate Valid()
      reads this, argv
    {
      OnTrack(argv[..], original, firstNonopt, lastNonopt, optind, nextchar, events, settings) &&
      (nextchar != "" ==> optind < argv.Length && !IsLong(argv[optind], settings) && |nextchar| < |argv[optind]|)
    }

    ghost function Left(): nat
      reads this, argv
    {
      if nextchar != "" then |nextchar| else if optind < argv.Length then |argv[optind]| + 1 else 0
    }

    constructor (argv: array<string>, settings: Settings)
      requires argv.Length > 0
      requires forall k :: 0 <= k < |settings.optstring| - 1 && settings.optstring[k] == 'W' ==>
                 settings.optstring[k + 1] != ';'
      ensures Valid() && this.argv == argv && this.settings == settings && original == argv[..] && events == []
    {
      this.argv := argv;
      this.settings := settings;
      original := argv[..];
      optind, firstNonopt, lastNonopt, nextchar, events := 1, 1, 1, "", [];
      Starting(argv[..], settings);
    }

    /** Brings options in front of the non-options skipped so far, and skips more. */
    method PermuteSkipped()
      requires Valid() && nextchar == "" && settings.ordering == Permute
      modifies this, argv
      ensures Valid() && nextchar == "" && events == old(events) && lastNonopt == optind >= old(optind)
      ensures optind < argv.Length ==> !IsNonOption(argv[optind])
      ensures optind == old(optind) ==> Left() == old(Left())
    {
      hide Progress, ScanAll, Exchanged;
      if firstNonopt != lastNonopt && lastNonopt != optind {
        ExchangeKeeps(argv[..], firstNonopt, lastNonopt, optind, "", events, settings);
        TailEntry(argv[..], Exchanged(argv[..], firstNonopt, lastNonopt, optind), optind);
        Exchange(argv, firstNonopt, lastNonopt, optind);
        firstNonopt := firstNonopt + (optind - lastNonopt);
        lastNonopt := optind;
      } else if lastNonopt != optind {
        NothingSkipped(argv[..], firstNonopt, optind, "", events, settings);
        firstNonopt := optind;
      }
      while optind < argv.Length && IsNonOption(argv[optind])
        invariant old(optind) <= optind && nextchar == "" && events == old(events)
        invariant OnTrack(argv[..], original, firstNonopt, optind, optind, "", events, settings)
        invariant optind == old(optind) ==> Left() == old(Left())
      {
        SkipKeeps(argv[..], firstNonopt, optind, events, settings);
        optind := optind + 1;
      }
      lastNonopt := optind;
    }

    /** Moves on to the next element. */
    method Advance() returns (status: Status)
      requires Valid() && nextchar == ""
      modifies this, argv
      ensures status == Finished ==> Done(argv[..], original, optind, events, settings) && events == old(events)
      ensures status.Passed? ==>
                Valid() && nextchar == "" && optind > old(optind) && events == old(events) + [NonOption(status.element)]
      ensures status == AtOption ==>
                OnTrack(argv[..], original, firstNonopt, lastNonopt, optind, "", events, settings)
                  && events == old(events)
                && old(optind) <= optind < argv.Length && !IsNonOption(argv[optind]) && argv[optind] != "--"
                && (optind == old(optind) ==> old(Left()) == |argv[optind]| + 1)
                && nextchar == (if IsLong(argv[optind], settings) then argv[optind][2..] else argv[optind][1..])
    {
      hide Progress, ScanAll, Exchanged, Done;
      if settings.ordering == Permute {
        PermuteSkipped();
      }
      if optind != argv.Length && argv[optind] == "--" {
        EndOfOptions(argv[..], original, firstNonopt, lastNonopt, optind, events, settings);
        optind := optind + 1;
        if firstNonopt != lastNonopt && lastNonopt != optind {
          Exchange(argv, firstNonopt, lastNonopt, optind);
          firstNonopt := firstNonopt + (optind - lastNonopt);
          lastNonopt := optind;
        } else if firstNonopt == lastNonopt {
          firstNonopt := optind;
        }
        lastNonopt := argv.Length;
        optind := argv.Length;
      } else if optind == argv.Length {
        EndOfElements(argv[..], original, firstNonopt, lastNonopt, events, settings);
      }
      if optind == argv.Length {
        if firstNonopt != lastNonopt {
          optind := firstNonopt;
        }
        return Finished;
      }
      if IsNonOption(argv[optind]) {
        if settings.ordering == RequireOrder {
          StopAtNonOption(argv[..], original, firstNonopt, optind, events, settings);
          return Finished;
        }
        PassNonOption(argv[..], original, firstNonopt, optind, events, settings);
        events := events + [NonOption(argv[optind])];
        optind := optind + 1;
        return Passed(argv[optind - 1]);
      }
      nextchar := if IsLong(argv[optind], settings) then argv[optind][2..] else argv[optind][1..];
      return AtOption;
    }

    /** Looks a name up among the long options. */
    method FindLong(table: seq<LongOption>, name: string) returns (m: Match)
      ensures m == LongMatch(table, name)
    {
      var pfound: Option<nat>, ambig := None, false;
      for i := 0 to |table|
        invariant MatchFrom(table, name, i, pfound, ambig) == LongMatch(table, name)
      {
        if name <= table[i].name {
          if |name| == |table[i].name| {
            return Found(i);
          } else if pfound == None {
            pfound := Some(i);
          } else {
            ambig := true;
          }
        }
      }
      return if ambig then Several else if pfound.Some? then Found(pfound.value) else NoMatch;
    }

    /** A long option, at the start of an element. */
    method DecodeLongOption(table: seq<LongOption>) returns (event: Event)
      requires optind < argv.Length && |argv[optind]| > 2 && nextchar == argv[optind][2..]
      modifies `optind, `nextchar
      ensures nextchar == ""
      ensures var d := DecodeLong(old(argv[optind][2..]), Second(old(argv[optind..])), table);
              d.events == [event] && optind == old(optind) + Taken(old(argv[optind..]), d)
    {
      MatchInTable(table, nextchar[..IndexOf(nextchar, '=')]);
      var nameend := IndexOf(nextchar, '=');
      var m := FindLong(table, nextchar[..nameend]);
      var body := nextchar;
      nextchar := "";
      optind := optind + 1;
      match m
      case Several => return Ambiguous;
      case NoMatch => return Unrecognized;
      case Found(i) =>
        if nameend < |body| {
          if table[i].argument != NoArgument {
            return Long(i, Some(body[nameend + 1..]));
          } else {
            return UnwantedArgument(i);
          }
        } else if table[i].argument == RequiredArgument {
          if optind < argv.Length {
            optind := optind + 1;
            return Long(i, Some(argv[optind - 1]));
          } else {
            return MissingLongArgument(i);
          }
        }
        return Long(i, None);
    }

    /** The next character of a cluster of short options. */
    method DecodeShortOption() returns (event: Event)
      requires optind < argv.Length && nextchar != ""
      modifies `optind, `nextchar
      ensures ShortStep(old(argv[optind..]), old(nextchar), settings.optstring, event, nextchar, optind - old(optind))
    {
      var c := nextchar[0];
      nextchar := nextchar[1..];
      if nextchar == "" {
        optind := optind + 1;
      }
      if !Accepted(settings.optstring, c) {
        return Invalid(c);
      }
      var kind := ArgumentOf(settings.optstring, c);
      var optarg: Option<string> := None;
      if kind == OptionalArgument {
        if nextchar != "" {
          optarg := Some(nextchar);
          optind := optind + 1;
        }
        nextchar := "";
      } else if kind == RequiredArgument {
        if nextchar != "" {
          optarg := Some(nextchar);
          optind := optind + 1;
        } else if optind == argv.Length {
          nextchar := "";
          return MissingArgument(c);
        } else {
          optarg := Some(argv[optind]);
          optind := optind + 1;
        }
        nextchar := "";
      }
      return Short(c, optarg);
    }

    /** One call: the next report, or none at the end of the options. */
    method Next() returns (event: Option<Event>)
      requires Valid()
      modifies this, argv
      ensures event.Some? ==>
                Valid() && events == old(events) + [event.value]
                && (optind > old(optind) || (optind == old(optind) && Left() < old(Left())))
      ensures event.None? ==> Done(argv[..], original, optind, events, settings) && events == old(events)
    {
      hide OnTrack, Done, DecodeLong, ShortStep;
      if nextchar == "" {
        var status := Advance();
        match status
        case Finished => return None;
        case Passed(element) => return Some(NonOption(element));
        case AtOption =>
          if !IsLong(argv[optind], settings) {
            StartCluster(argv[..], original, firstNonopt, lastNonopt, optind, events, settings);
          }
      }
      if IsLong(argv[optind], settings) {
        LongKept(argv[..], original, firstNonopt, lastNonopt, optind, events, settings);
        var e := DecodeLongOption(settings.longopts.value);
        events := events + [e];
        event := Some(e);
      } else {
        ghost var before, at := nextchar, optind;
        var e := DecodeShortOption();
        ShortKept(argv[..], original, firstNonopt, lastNonopt, at, before, nextchar, optind - at, e, events, settings);
        events := events + [e];
        event := Some(e);
      }
    }

    /** Calls until the options are used up. */
    method ScanOptions()
      requires Valid() && events == []
      modifies this, argv
      ensures Done(argv[..], original, optind, events, settings)
    {
      hide Progress, ScanAll, Done;
      var more := true;
      while more
        invariant if more then Valid() else Done(argv[..], original, optind, events, settings)
        decreases more, argv.Length - optind, Left()
      {
        var event := Next();
        more := event.Some?;
      }
    }
  }

  /** Where the scan stops, with the last elements it takes and leaves. */
  lemma Conclude(argv: seq<string>, original: seq<string>, first: nat, last: nat, optind: nat, events: seq<Event>,
                 settings: Settings, taken: seq<string>, left: seq<string>)
    requires OnTrack(argv, original, first, last, optind, "", events, settings)
    requires ScanAll(argv[optind..], settings) == Scan(taken, left, [])
    ensures ScanAll(original[1..], settings)
         == Scan(argv[1..first] + argv[last..optind] + taken, argv[first..last] + left, events)
  {
    hide ScanAll;
    assert events + [] == events;
  }

  lemma ScanStops(argv: seq<string>, optind: nat, settings: Settings)
    requires optind <= |argv|
    ensures optind == |argv| ==> ScanAll(argv[optind..], settings) == Scan([], [], [])
    ensures optind < |argv| && argv[optind] == "--" ==>
              ScanAll(argv[optind..], settings) == Scan(["--"], argv[optind + 1..], [])
    ensures optind < |argv| && IsNonOption(argv[optind]) && settings.ordering == RequireOrder ==>
              ScanAll(argv[optind..], settings) == Scan([], argv[optind..], [])
  {
    hide Decode;
    if optind < |argv| {
      assert argv[optind..][0] == argv[optind] && argv[optind..][1..] == argv[optind + 1..];
    }
  }

  lemma EndOfOptions(argv: seq<string>, original: seq<string>, first: nat, last: nat, optind: nat, events: seq<Event>,
                     settings: Settings)
    requires OnTrack(argv, original, first, last, optind, "", events, settings)
    requires optind < |argv| && argv[optind] == "--" && (settings.ordering == Permute ==> last == optind)
    ensures first == last ==> Done(argv, original, optind + 1, events, settings)
    ensures first != last ==> Done(Exchanged(argv, first, last, optind + 1), original, first + 1, events, settings)
  {
    hide ScanAll, Progress, Exchanged;
    ScanStops(argv, optind, settings);
    Conclude(argv, original, first, last, optind, events, settings, ["--"], argv[optind + 1..]);
    if first == last {
      KeptAndLeft(argv, first, optind);
    } else {
      ExchangedEnd(argv, first, last);
    }
  }

  lemma KeptAndLeft(argv: seq<string>, first: nat, optind: nat)
    requires 1 <= first <= optind <= |argv|
    ensures argv == [argv[0]] + (argv[1..first] + argv[first..optind] + []) + (argv[first..first] + argv[optind..])
    ensures optind < |argv| ==>
              argv == [argv[0]] + (argv[1..first] + argv[first..optind] + [argv[optind]])
                + (argv[first..first] + argv[optind + 1..])
  {
    assert argv[1..first] + argv[first..optind] == argv[1..optind];
    assert argv[first..first] + argv[optind..] == argv[optind..];
    if optind < |argv| {
      assert argv[1..optind] + [argv[optind]] == argv[1..optind + 1];
      assert argv[first..first] + argv[optind + 1..] == argv[optind + 1..];
    }
  }

  lemma ExchangedEnd(argv: seq<string>, first: nat, last: nat)
    requires 1 <= first <= last < |argv|
    ensures Exchanged(argv, first, last, last + 1)
         == [argv[0]] + (argv[1..first] + argv[last..last] + [argv[last]]) + (argv[first..last] + argv[last + 1..])
  {
    assert argv[..first] == [argv[0]] + argv[1..first];
    assert argv[1..first] + argv[last..last] == argv[1..first];
    assert argv[last..last + 1] == [argv[last]];
  }

  lemma EndOfElements(argv: seq<string>, original: seq<string>, first: nat, last: nat, events: seq<Event>,
                      settings: Settings)
    requires OnTrack(argv, original, first, last, |argv|, "", events, settings)
    requires settings.ordering == Permute ==> last == |argv|
    ensures Done(argv, original, if first != last then first else |argv|, events, settings)
  {
    hide ScanAll, Progress;
    ScanStops(argv, |argv|, settings);
    Conclude(argv, original, first, last, |argv|, events, settings, [], []);
    if first == last {
      KeptAndLeft(argv, first, |argv|);
      assert argv[first..first] + [] == argv[first..first] + argv[|argv|..];
    } else {
      KeptBeforeSkipped(argv, first);
    }
  }

  lemma KeptBeforeSkipped(argv: seq<string>, first: nat)
    requires 1 <= first <= |argv|
    ensures argv == [argv[0]] + (argv[1..first] + argv[|argv|..|argv|] + []) + (argv[first..|argv|] + [])
  {
    assert argv[1..first] + argv[|argv|..|argv|] + [] == argv[1..first];
    assert argv[first..|argv|] + [] == argv[first..];
  }

  lemma StopAtNonOption(argv: seq<string>, original: seq<string>, first: nat, optind: nat, events: seq<Event>,
                        settings: Settings)
    requires OnTrack(argv, original, first, first, optind, "", events, settings)
    requires optind < |argv| && IsNonOption(argv[optind]) && settings.ordering == RequireOrder
    ensures Done(argv, original, optind, events, settings)
  {
    hide ScanAll, Progress;
    ScanStops(argv, optind, settings);
    Conclude(argv, original, first, first, optind, events, settings, [], argv[optind..]);
    KeptAndLeft(argv, first, optind);
  }

  lemma PassNonOption(argv: seq<string>, original: seq<string>, first: nat, optind: nat, events: seq<Event>,
                      settings: Settings)
    requires settings.ordering == ReturnInOrder
    requires OnTrack(argv, original, first, first, optind, "", events, settings) && optind < |argv|
             && IsNonOption(argv[optind])
    requires argv[optind] != "--"
    ensures OnTrack(argv, original, first, first, optind + 1, "", events + [NonOption(argv[optind])], settings)
  {
    hide ScanAll;
    ScanPasses(argv, optind, settings);
    var s := ScanAll(argv[optind + 1..], settings);
    KeepElements(argv, first, first, optind, 1, s.consumed);
    assert argv[optind..optind + 1] == [argv[optind]];
    assert events + ([NonOption(argv[optind])] + s.events) == events + [NonOption(argv[optind])] + s.events;
  }

  lemma ScanPasses(argv: seq<string>, optind: nat, settings: Settings)
    requires optind < |argv| && IsNonOption(argv[optind]) && settings.ordering == ReturnInOrder
    ensures var s := ScanAll(argv[optind + 1..], settings);
            ScanAll(argv[optind..], settings)
              == Scan([argv[optind]] + s.consumed, s.rest, [NonOption(argv[optind])] + s.events)
  {
    hide Decode;
    assert argv[optind..][0] == argv[optind] && argv[optind..][1..] == argv[optind + 1..];
    var s := ScanAll(argv[optind + 1..], settings);
    assert [] + s.rest == s.rest;
  }

  /** Elements taken from the rest of the vector join those kept. */
  lemma KeepElements(argv: seq<string>, first: nat, last: nat, optind: nat, k: nat, more: seq<string>)
    requires 1 <= first <= last <= optind && optind + k <= |argv|
    ensures argv[1..first] + argv[last..optind] + (argv[optind..optind + k] + more)
         == argv[1..first] + argv[last..optind + k] + more
  {
    assert argv[last..optind + k] == argv[last..optind] + argv[optind..optind + k];
  }

  lemma Starting(argv: seq<string>, settings: Settings)
    requires argv != []
    ensures OnTrack(argv, argv, 1, 1, 1, "", [], settings)
  {
    hide ScanAll;
    var s := ScanAll(argv[1..], settings);
    assert [] + s.consumed == s.consumed && [] + s.rest == s.rest && [] + s.events == s.events;
    assert argv[1..1] + argv[1..1] == [];
  }

  lemma TailEntry(s: seq<string>, r: seq<string>, k: nat)
    requires k <= |s| == |r| && r[k..] == s[k..]
    ensures k < |s| ==> r[k] == s[k]
  {
    assert k < |s| ==> r[k..][0] == r[k] && s[k..][0] == s[k];
  }

  lemma {:induction false} MatchInTableFrom(table: seq<LongOption>, name: string, i: nat, found: Option<nat>,
                                            ambiguous: bool)
    requires i <= |table| && (found.Some? ==> found.value < |table|)
    ensures var m := MatchFrom(table, name, i, found, ambiguous);
            m.Found? ==> m.index < |table|
    decreases |table| - i
  {
    if i < |table| {
      MatchInTableFrom(table, name, i + 1, found, ambiguous);
      MatchInTableFrom(table, name, i + 1, Some(i), ambiguous);
      MatchInTableFrom(table, name, i + 1, found, true);
    }
  }

  lemma MatchInTable(table: seq<LongOption>, name: string)
    ensures LongMatch(table, name).Found? ==> LongMatch(table, name).index < |table|
  {
    MatchInTableFrom(table, name, 0, None, false);
  }

  /** What one character of a cluster does: it reports the first event of the cluster
      and leaves the rest of it, or ends the element. */
  predicate ShortStep(args: seq<string>, nextchar: string, optstring: string, event: Event, nextchar': string, k: int) {
    args != [] &&
    var d, d' := DecodeShort(nextchar, Second(args), optstring), DecodeShort(nextchar', Second(args), optstring);
    d.events == [event] + d'.events &&
    if nextchar' == "" then k == Taken(args, d)
    else k == 0 && d.takesNext == d'.takesNext && |nextchar'| < |nextchar|
  }

  lemma StartCluster(argv: seq<string>, original: seq<string>, first: nat, last: nat, optind: nat, events: seq<Event>,
                     settings: Settings)
    requires OnTrack(argv, original, first, last, optind, "", events, settings)
    requires optind < |argv| && !IsNonOption(argv[optind]) && argv[optind] != "--" && !IsLong(argv[optind], settings)
    ensures OnTrack(argv, original, first, last, optind, argv[optind][1..], events, settings)
  {
    hide DecodeShort;
    assert argv[optind..][0] == argv[optind];
  }

  /** An option whose element is done joins the elements kept. */
  lemma OptionKept(argv: seq<string>, original: seq<string>, first: nat, last: nat, optind: nat, nextchar: string,
                   d: Decoded, events: seq<Event>, settings: Settings)
    requires OnTrack(argv, original, first, last, optind, nextchar, events, settings) && optind < |argv|
    requires var tail := argv[optind..];
             Pending(tail, nextchar, settings)
             == Before(tail[..Taken(tail, d)], [], d.events, ScanAll(tail[Taken(tail, d)..], settings))
    ensures OnTrack(argv, original, first, last, optind + Taken(argv[optind..], d), "", events + d.events, settings)
  {
    hide ScanAll, Pending;
    var tail := argv[optind..];
    var k := Taken(tail, d);
    var s := ScanAll(argv[optind + k..], settings);
    assert tail[k..] == argv[optind + k..] && tail[..k] == argv[optind..optind + k];
    PendingAtStart(argv[optind + k..], settings);
    assert [] + s.rest == s.rest;
    KeepElements(argv, first, last, optind, k, s.consumed);
    assert events + (d.events + s.events) == events + d.events + s.events;
  }

  lemma PendingAtStart(args: seq<string>, settings: Settings)
    ensures Pending(args, "", settings) == ScanAll(args, settings)
  {
  }

  lemma TwoDashes(e: string)
    ensures |e| == 2 && e[0] == '-' && e[1] == '-' ==> e == "--"
  {
  }

  lemma LongKept(argv: seq<string>, original: seq<string>, first: nat, last: nat, optind: nat, events: seq<Event>,
                 settings: Settings)
    requires OnTrack(argv, original, first, last, optind, "", events, settings)
    requires optind < |argv| && !IsNonOption(argv[optind]) && argv[optind] != "--" && IsLong(argv[optind], settings)
    ensures |argv[optind]| > 2
    ensures var d := DecodeLong(argv[optind][2..], Second(argv[optind..]), settings.longopts.value);
            OnTrack(argv, original, first, last, optind + Taken(argv[optind..], d), "", events + d.events, settings)
  {
    hide DecodeLong, OnTrack;
    TwoDashes(argv[optind]);
    var tail := argv[optind..];
    assert tail[0] == argv[optind];
    var d := DecodeLong(argv[optind][2..], Second(tail), settings.longopts.value);
    OptionKept(argv, original, first, last, optind, "", d, events, settings);
  }

  lemma ShortKept(argv: seq<string>, original: seq<string>, first: nat, last: nat, optind: nat, nextchar: string,
                  nextchar': string, k: int, event: Event, events: seq<Event>, settings: Settings)
    requires OnTrack(argv, original, first, last, optind, nextchar, events, settings) && nextchar != ""
             && optind < |argv|
    requires ShortStep(argv[optind..], nextchar, settings.optstring, event, nextchar', k)
    ensures 0 <= k && OnTrack(argv, original, first, last, optind + k, nextchar', events + [event], settings)
    ensures if nextchar' == "" then k > 0 else k == 0 && |nextchar'| < |nextchar|
  {
    hide ScanAll;
    var tail := argv[optind..];
    var d := DecodeShort(nextchar, Second(tail), settings.optstring);
    if nextchar' == "" {
      assert d.events == [event];
      OptionKept(argv, original, first, last, optind, nextchar, d, events, settings);
    } else {
      var d' := DecodeShort(nextchar', Second(tail), settings.optstring);
      var s := ScanAll(tail[Taken(tail, d)..], settings);
      assert events + ([event] + d'.events + s.events) == events + [event] + (d'.events + s.events);
    }
  }
}
