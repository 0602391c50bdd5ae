/** What options mean to a user: declared options, the ways they are used on a command line,
    and that scanning a command line made of such uses reports exactly these. */
module OptionUses {
  import opened Wrappers
  import opened Getopt

  // ---------------------------------------------------------------- declarations

  datatype Kind = Flag | NeedsArgument | MayHaveArgument

  datatype Declared = Declared(c: char, kind: Kind)

  function SpellDeclared(d: Declared): string {
    match d.kind
    case Flag => [d.c]
    case NeedsArgument => [d.c] + ":"
    case MayHaveArgument => [d.c] + "::"
  }

  function Optstring(ds: seq<Declared>): string {
    if ds == [] then "" else SpellDeclared(ds[0]) + Optstring(ds[1..])
  }

  /** No option is declared twice, and none is a colon or a dash. */
  predicate Declarations(ds: seq<Declared>) {
    (forall i, j :: 0 <= i < j < |ds| ==> ds[i].c != ds[j].c) &&
    (forall d :: d in ds ==> d.c != ':' && d.c != '-')
  }

  predicate Undeclared(ds: seq<Declared>, c: char) {
    forall d :: d in ds ==> d.c != c
  }

  // ---------------------------------------------------------------- uses

  /** How a cluster of short options ends: with its last flag, or with an option that has
      its argument in the same element, in the next one, or none although it could. */
  datatype Tail =
    | NoTail
    | Attached(c: char, arg: string)
    | Separate(c: char, arg: string)
    | Omitted(c: char)

  datatype LongTail = NoValue | Value(arg: string) | NextValue(arg: string)

  datatype Use =
    | Cluster(flags: string, tail: Tail)
    | LongUse(index: nat, written: string, value: LongTail)
    | Operand(element: string)

  function Render(u: Use): seq<string> {
    match u
    case Cluster(flags, NoTail) => ["-" + flags]
    case Cluster(flags, Attached(c, arg)) => ["-" + (flags + ([c] + arg))]
    case Cluster(flags, Separate(c, arg)) => ["-" + (flags + [c]), arg]
    case Cluster(flags, Omitted(c)) => ["-" + (flags + [c])]
    case LongUse(_, written, NoValue) => ["--" + written]
    case LongUse(_, written, Value(arg)) => ["--" + (written + ("=" + arg))]
    case LongUse(_, written, NextValue(arg)) => ["--" + written, arg]
    case Operand(element) => [element]
  }

  function RenderAll(uses: seq<Use>): seq<string> {
    if uses == [] then [] else Render(uses[0]) + RenderAll(uses[1..])
  }

  /** A declared flag is reported, and any other character is invalid. */
  function FlagEvents(ds: seq<Declared>, flags: string): seq<Event> {
    if flags == "" then []
    else
      [if Declared(flags[0], Flag) in ds then Short(flags[0], None) else Invalid(flags[0])]
      + FlagEvents(ds, flags[1..])
  }

  function Report(ds: seq<Declared>, ordering: Ordering, u: Use): seq<Event> {
    match u
    case Cluster(flags, NoTail) => FlagEvents(ds, flags)
    case Cluster(flags, Attached(c, arg)) => FlagEvents(ds, flags) + [Short(c, Some(arg))]
    case Cluster(flags, Separate(c, arg)) => FlagEvents(ds, flags) + [Short(c, Some(arg))]
    case Cluster(flags, Omitted(c)) => FlagEvents(ds, flags) + [Short(c, None)]
    case LongUse(i, _, NoValue) => [Long(i, None)]
    case LongUse(i, _, Value(arg)) => [Long(i, Some(arg))]
    case LongUse(i, _, NextValue(arg)) => [Long(i, Some(arg))]
    case Operand(element) => if ordering == ReturnInOrder then [NonOption(element)] else []
  }

  function Reports(ds: seq<Declared>, ordering: Ordering, uses: seq<Use>): seq<Event> {
    if uses == [] then [] else Report(ds, ordering, uses[0]) + Reports(ds, ordering, uses[1..])
  }

  /** What the options use up, and what is left for the caller. */
  function UsedUp(ordering: Ordering, uses: seq<Use>): seq<string> {
    if uses == [] then []
    else (if uses[0].Operand? && ordering == Permute then [] else Render(uses[0])) + UsedUp(ordering, uses[1..])
  }

  function LeftOver(ordering: Ordering, uses: seq<Use>): seq<string> {
    if uses == [] then []
    else (if uses[0].Operand? && ordering == Permute then Render(uses[0]) else []) + LeftOver(ordering, uses[1..])
  }

  // ---------------------------------------------------------------- correct uses

  predicate FlagsOnly(ds: seq<Declared>, flags: string) {
    forall k :: 0 <= k < |flags| ==> Declared(flags[k], Flag) in ds || Undeclared(ds, flags[k])
  }

  predicate ProperTail(ds: seq<Declared>, tail: Tail) {
    match tail
    case NoTail => true
    case Attached(c, arg) => arg != "" && (Declared(c, NeedsArgument) in ds || Declared(c, MayHaveArgument) in ds)
    case Separate(c, _) => Declared(c, NeedsArgument) in ds
    case Omitted(c) => Declared(c, MayHaveArgument) in ds
  }

  /** The name of a long option, or an abbreviation of this one only. */
  predicate Means(table: seq<LongOption>, i: nat, written: string) {
    i < |table| && written != "" && '=' !in written &&
    ((written == table[i].name && forall j :: 0 <= j < i ==> table[j].name != written)
     || (written <= table[i].name && forall j :: 0 <= j < |table| && j != i ==> !(written <= table[j].name)))
  }

  predicate ProperLong(option: LongOption, value: LongTail) {
    match value
    case NoValue => option.argument != RequiredArgument
    case Value(_) => option.argument != NoArgument
    case NextValue(_) => option.argument == RequiredArgument
  }

  predicate Proper(ds: seq<Declared>, longopts: Option<seq<LongOption>>, ordering: Ordering, u: Use) {
    match u
    case Cluster(flags, tail) =>
      FlagsOnly(ds, flags) && ProperTail(ds, tail) && (flags == "" ==> tail != NoTail)
        && (flags != "" ==> flags[0] != '-')
    case LongUse(i, written, value) =>
      longopts.Some? && Means(longopts.value, i, written) && ProperLong(longopts.value[i], value)
    case Operand(element) => ordering != RequireOrder && (element == "" || element[0] != '-' || element == "-")
  }

  // ---------------------------------------------------------------- what an optstring says

  lemma {:induction false} IndexBehind(a: string, b: string, c: char)
    requires c !in a
    ensures IndexOf(a + b, c) == |a| + IndexOf(b, c)
    decreases |a|
  {
    if a == "" {
      assert a + b == b;
    } else {
      assert (a + b)[1..] == a[1..] + b;
      IndexBehind(a[1..], b, c);
    }
  }

  function ArgumentFor(kind: Kind): Argument {
    match kind
    case Flag => NoArgument
    case NeedsArgument => RequiredArgument
    case MayHaveArgument => OptionalArgument
  }

  lemma OptstringStart(ds: seq<Declared>)
    requires Declarations(ds)
    ensures Optstring(ds) == "" || Optstring(ds)[0] != ':'
  {
    if ds != [] {
      assert ds[0] in ds;
      assert Optstring(ds)[0] == ds[0].c;
    }
  }

  lemma ArgumentBehind(a: string, b: string, c: char)
    requires c !in a
    ensures Accepted(a + b, c) == Accepted(b, c) && ArgumentOf(a + b, c) == ArgumentOf(b, c)
  {
    hide IndexOf;
    IndexBehind(a, b, c);
    var s, k := a + b, IndexOf(b, c);
    assert k + 1 < |b| ==> s[|a| + k + 1] == b[k + 1];
    assert k + 2 < |b| ==> s[|a| + k + 2] == b[k + 2];
  }

  lemma ArgumentInFront(d: Declared, rest: string)
    requires d.c != ':' && (rest == "" || rest[0] != ':')
    ensures Accepted(SpellDeclared(d) + rest, d.c) && ArgumentOf(SpellDeclared(d) + rest, d.c) == ArgumentFor(d.kind)
  {
    var first, s := SpellDeclared(d), SpellDeclared(d) + rest;
    assert s[0] == d.c && IndexOf(s, d.c) == 0;
    assert rest != "" ==> s[|first|] == rest[0];
    match d.kind
    case Flag =>
    case NeedsArgument => assert s[1] == first[1];
    case MayHaveArgument => assert s[1] == first[1] && s[2] == first[2];
  }

  /** A declared option is accepted with the argument it was declared with. */
  lemma {:induction false} DeclaredMeans(ds: seq<Declared>, d: Declared)
    requires Declarations(ds) && d in ds
    ensures Accepted(Optstring(ds), d.c) && ArgumentOf(Optstring(ds), d.c) == ArgumentFor(d.kind)
    decreases |ds|
  {
    hide ArgumentOf, Accepted, ArgumentFor, SpellDeclared;
    assert ds == [ds[0]] + ds[1..] && ds[0] in ds;
    OptstringStart(ds[1..]);
    if d == ds[0] {
      ArgumentInFront(d, Optstring(ds[1..]));
    } else {
      var i :| 0 < i < |ds| && ds[i] == d;
      assert ds[0].c != ds[i].c;
      NotSpelledThere(ds[0], d.c);
      ArgumentBehind(SpellDeclared(ds[0]), Optstring(ds[1..]), d.c);
      DeclaredMeans(ds[1..], d);
    }
  }

  lemma NotSpelledThere(d: Declared, c: char)
    requires d.c != c && c != ':'
    ensures c !in SpellDeclared(d)
  {
  }

  lemma {:induction false} UndeclaredMeans(ds: seq<Declared>, c: char)
    requires Declarations(ds) && Undeclared(ds, c)
    ensures !Accepted(Optstring(ds), c)
    decreases |ds|
  {
    if ds != [] && c != ':' {
      assert ds[0] in ds;
      IndexBehind(SpellDeclared(ds[0]), Optstring(ds[1..]), c);
      UndeclaredMeans(ds[1..], c);
    }
  }

  // ---------------------------------------------------------------- one element

  /** The flags in front of a tail. */
  lemma {:induction false} FlagsDecoded(ds: seq<Declared>, flags: string, rest: string, next: Option<string>)
    requires Declarations(ds) && FlagsOnly(ds, flags)
    ensures var d := DecodeShort(rest, next, Optstring(ds));
            DecodeShort(flags + rest, next, Optstring(ds)) == Decoded(FlagEvents(ds, flags) + d.events, d.takesNext)
    decreases |flags|
  {
    hide Optstring, ArgumentOf, Accepted, Declarations, DecodeShort;
    var d := DecodeShort(rest, next, Optstring(ds));
    if flags == "" {
      assert flags + rest == rest && [] + d.events == d.events;
    } else {
      var c := flags[0];
      assert flags + rest == [c] + (flags[1..] + rest);
      FlagsDecoded(ds, flags[1..], rest, next);
      OneFlag(ds, c, flags[1..] + rest, next);
      FlagEventsFirst(ds, flags, d.events);
    }
  }

  lemma FlagEventsFirst(ds: seq<Declared>, flags: string, events: seq<Event>)
    requires flags != ""
    ensures FlagEvents(ds, [flags[0]]) + (FlagEvents(ds, flags[1..]) + events) == FlagEvents(ds, flags) + events
  {
    assert [flags[0]][1..] == "" && FlagEvents(ds, "") == [];
  }

  lemma OneFlag(ds: seq<Declared>, c: char, more: string, next: Option<string>)
    requires Declarations(ds) && (Declared(c, Flag) in ds || Undeclared(ds, c))
    ensures var d := DecodeShort(more, next, Optstring(ds));
            DecodeShort([c] + more, next, Optstring(ds)) == Decoded(FlagEvents(ds, [c]) + d.events, d.takesNext)
  {
    hide Optstring, ArgumentOf, Accepted, Declarations;
    assert ([c] + more)[0] == c && ([c] + more)[1..] == more && [c][1..] == "";
    if Declared(c, Flag) in ds {
      DeclaredMeans(ds, Declared(c, Flag));
    } else {
      UndeclaredMeans(ds, c);
    }
  }

  function TailText(tail: Tail): string {
    match tail
    case NoTail => ""
    case Attached(c, arg) => [c] + arg
    case Separate(c, _) => [c]
    case Omitted(c) => [c]
  }

  function TailEvents(tail: Tail): seq<Event> {
    match tail
    case NoTail => []
    case Attached(c, arg) => [Short(c, Some(arg))]
    case Separate(c, arg) => [Short(c, Some(arg))]
    case Omitted(c) => [Short(c, None)]
  }

  lemma TailDecoded(ds: seq<Declared>, tail: Tail, next: Option<string>)
    requires Declarations(ds) && ProperTail(ds, tail) && (tail.Separate? ==> next == Some(tail.arg))
    ensures DecodeShort(TailText(tail), next, Optstring(ds)) == Decoded(TailEvents(tail), tail.Separate?)
  {
    hide Optstring, ArgumentOf, Accepted, Declarations;
    match tail
    case NoTail =>
    case Attached(c, arg) =>
      DeclaredMeans(ds, Declared(c, if Declared(c, NeedsArgument) in ds then NeedsArgument else MayHaveArgument));
      assert ([c] + arg)[1..] == arg;
    case Separate(c, _) =>
      DeclaredMeans(ds, Declared(c, NeedsArgument));
      assert [c][1..] == "";
    case Omitted(c) =>
      DeclaredMeans(ds, Declared(c, MayHaveArgument));
      assert [c][1..] == "";
  }

  lemma ClusterText(flags: string, tail: Tail)
    ensures Render(Cluster(flags, tail))[0] == "-" + (flags + TailText(tail))
    ensures Render(Cluster(flags, tail))
            == ["-" + (flags + TailText(tail))] + (if tail.Separate? then [tail.arg] else [])
  {
    if tail.NoTail? {
      assert flags + "" == flags;
    }
  }

  lemma ClusterScanned(ds: seq<Declared>, settings: Settings, u: Use, more: seq<string>)
    requires u.Cluster? && Declarations(ds) && Proper(ds, settings.longopts, settings.ordering, u)
    requires settings.optstring == Optstring(ds)
    ensures ScanAll(Render(u) + more, settings)
            == Before(Render(u), [], Report(ds, settings.ordering, u), ScanAll(more, settings))
  {
    hide Optstring, Declarations, FlagsOnly, DecodeShort;
    var body, args := u.flags + TailText(u.tail), Render(u) + more;
    var next := Second(args);
    ClusterText(u.flags, u.tail);
    assert args[0] == "-" + body && args[0][1..] == body;
    BodyStarts(u.flags, u.tail, ds);
    assert body != "" && args[0][1] == body[0];
    FlagsDecoded(ds, u.flags, TailText(u.tail), next);
    TailDecoded(ds, u.tail, next);
    ReportOfTail(ds, settings.ordering, u);
    var d := DecodeShort(body, next, settings.optstring);
    assert !IsLong(args[0], settings) && d == Decode(args[0], next, settings);
    assert args[..|Render(u)|] == Render(u) && args[|Render(u)|..] == more;
  }

  lemma BodyStarts(flags: string, tail: Tail, ds: seq<Declared>)
    requires ProperTail(ds, tail) && Declarations(ds)
    requires (flags == "" ==> tail != NoTail) && (flags != "" ==> flags[0] != '-')
    ensures flags + TailText(tail) != "" && (flags + TailText(tail))[0] != '-'
  {
  }

  lemma ReportOfTail(ds: seq<Declared>, ordering: Ordering, u: Use)
    requires u.Cluster?
    ensures Report(ds, ordering, u) == FlagEvents(ds, u.flags) + TailEvents(u.tail)
  {
  }

  // ---------------------------------------------------------------- long options

  lemma {:induction false} EqualsBehind(written: string, rest: string)
    requires '=' !in written
    ensures IndexOf(written, '=') == |written| && IndexOf(written + ("=" + rest), '=') == |written|
  {
    IndexBehind(written, "", '=');
    assert written + "" == written;
    IndexBehind(written, "=" + rest, '=');
  }

  lemma MeansIsFound(table: seq<LongOption>, i: nat, written: string)
    requires Means(table, i, written)
    ensures LongMatch(table, written) == Found(i)
  {
    LongMatchMeaning(table, written);
    assert Abbreviates(table, written, i);
    if written == table[i].name {
      assert Names(table, written, i);
    }
    match LongMatch(table, written)
    case Found(j) =>
      assert Abbreviates(table, written, j);
    case Several =>
    case NoMatch =>
  }

  function LongBody(u: Use): string
    requires u.LongUse?
  {
    match u.value
    case NoValue => u.written
    case Value(arg) => u.written + ("=" + arg)
    case NextValue(_) => u.written
  }

  lemma LongDecoded(u: Use, next: Option<string>, table: seq<LongOption>, ds: seq<Declared>, ordering: Ordering)
    requires u.LongUse? && Means(table, u.index, u.written) && ProperLong(table[u.index], u.value)
    requires u.value.NextValue? ==> next == Some(u.value.arg)
    ensures DecodeLong(LongBody(u), next, table) == Decoded(Report(ds, ordering, u), u.value.NextValue?)
  {
    hide LongMatch, IndexOf, Means;
    MeansIsFound(table, u.index, u.written);
    MeansParts(table, u.index, u.written);
    EqualsBehind(u.written, if u.value.Value? then u.value.arg else "");
    var body := LongBody(u);
    assert body[..|u.written|] == u.written;
    if u.value.Value? {
      assert body[|u.written| + 1..] == u.value.arg;
    }
  }

  lemma MeansParts(table: seq<LongOption>, i: nat, written: string)
    requires Means(table, i, written)
    ensures i < |table| && written != "" && '=' !in written
  {
  }

  lemma LongScanned(ds: seq<Declared>, settings: Settings, u: Use, more: seq<string>)
    requires u.LongUse? && Proper(ds, settings.longopts, settings.ordering, u)
    ensures ScanAll(Render(u) + more, settings)
            == Before(Render(u), [], Report(ds, settings.ordering, u), ScanAll(more, settings))
  {
    hide DecodeLong, DecodeShort, Means;
    var args := Render(u) + more;
    var next := Second(args);
    MeansParts(settings.longopts.value, u.index, u.written);
    assert args[0] == "--" + LongBody(u) && args[0][2..] == LongBody(u) && LongBody(u) != "";
    LongDecoded(u, next, settings.longopts.value, ds, settings.ordering);
    assert args[0] != "--" && IsLong(args[0], settings);
    assert args[..|Render(u)|] == Render(u) && args[|Render(u)|..] == more;
  }

  lemma OperandScanned(ds: seq<Declared>, settings: Settings, u: Use, more: seq<string>)
    requires u.Operand? && Proper(ds, settings.longopts, settings.ordering, u)
    ensures var used, left := UsedUp(settings.ordering, [u]), LeftOver(settings.ordering, [u]);
            ScanAll(Render(u) + more, settings)
            == Before(used, left, Report(ds, settings.ordering, u), ScanAll(more, settings))
  {
    var args := Render(u) + more;
    assert args[0] == u.element && args[1..] == more && [u][1..] == [];
    assert IsNonOption(u.element) && u.element != "--";
    assert Render(u) + [] == Render(u);
  }

  // ---------------------------------------------------------------- whole command lines

  /** A command line made of uses is scanned to these uses: every report is the one that was
      meant, every argument goes with its option, and what is left are the operands. What
      stands behind the uses is scanned as if it stood alone. */
  lemma {:induction false} UsesScanned(ds: seq<Declared>, settings: Settings, uses: seq<Use>, more: seq<string>)
    requires Declarations(ds) && settings.optstring == Optstring(ds)
    requires forall u :: u in uses ==> Proper(ds, settings.longopts, settings.ordering, u)
    ensures ScanAll(RenderAll(uses) + more, settings)
            == Before(UsedUp(settings.ordering, uses), LeftOver(settings.ordering, uses),
                      Reports(ds, settings.ordering, uses), ScanAll(more, settings))
    decreases |uses|
  {
    hide ScanAll, Render, Report, Proper, Optstring, Declarations;
    if uses == [] {
      assert [] + more == more;
      NothingBefore(ScanAll(more, settings));
    } else {
      var u, rest := uses[0], RenderAll(uses[1..]) + more;
      assert RenderAll(uses) + more == Render(u) + rest;
      UsesScanned(ds, settings, uses[1..], more);
      UseScanned(ds, settings, u, rest);
      BeforeTwice(UsedUp(settings.ordering, [u]), LeftOver(settings.ordering, [u]), Report(ds, settings.ordering, u),
                  UsedUp(settings.ordering, uses[1..]), LeftOver(settings.ordering, uses[1..]),
                  Reports(ds, settings.ordering, uses[1..]), ScanAll(more, settings));
      FirstUse(ds, settings.ordering, uses);
    }
  }

  lemma NothingBefore(s: Scan)
    ensures Before([], [], [], s) == s
  {
    assert [] + s.consumed == s.consumed && [] + s.rest == s.rest && [] + s.events == s.events;
  }

  lemma BeforeTwice(a: seq<string>, b: seq<string>, e: seq<Event>, c: seq<string>, d: seq<string>, f: seq<Event>,
                    s: Scan)
    ensures Before(a, b, e, Before(c, d, f, s)) == Before(a + c, b + d, e + f, s)
  {
    assert a + (c + s.consumed) == a + c + s.consumed && b + (d + s.rest) == b + d + s.rest;
    assert e + (f + s.events) == e + f + s.events;
  }

  lemma FirstUse(ds: seq<Declared>, ordering: Ordering, uses: seq<Use>)
    requires uses != []
    ensures UsedUp(ordering, uses) == UsedUp(ordering, [uses[0]]) + UsedUp(ordering, uses[1..])
    ensures LeftOver(ordering, uses) == LeftOver(ordering, [uses[0]]) + LeftOver(ordering, uses[1..])
    ensures Reports(ds, ordering, uses) == Report(ds, ordering, uses[0]) + Reports(ds, ordering, uses[1..])
  {
    assert [uses[0]][1..] == [];
  }

  lemma UseScanned(ds: seq<Declared>, settings: Settings, u: Use, more: seq<string>)
    requires Declarations(ds) && settings.optstring == Optstring(ds)
    requires Proper(ds, settings.longopts, settings.ordering, u)
    ensures ScanAll(Render(u) + more, settings)
            == Before(UsedUp(settings.ordering, [u]), LeftOver(settings.ordering, [u]),
                      Report(ds, settings.ordering, u), ScanAll(more, settings))
  {
    hide ScanAll, Render, Report, Proper, Optstring, Declarations;
    assert [u][1..] == [] && Render(u) + [] == Render(u);
    match u
    case Cluster(_, _) => ClusterScanned(ds, settings, u, more);
    case LongUse(_, _, _) => LongScanned(ds, settings, u, more);
    case Operand(_) => OperandScanned(ds, settings, u, more);
  }

  /** With permutation, and with or without an end mark and more elements behind it. */
  lemma CommandLine(ds: seq<Declared>, settings: Settings, uses: seq<Use>, mark: bool, more: seq<string>)
    requires Declarations(ds) && settings.optstring == Optstring(ds) && settings.ordering == Permute
    requires forall u :: u in uses ==> Proper(ds, settings.longopts, Permute, u)
    requires !mark ==> more == []
    ensures var line := RenderAll(uses) + (if mark then ["--"] + more else []);
            ScanAll(line, settings)
            == Scan(UsedUp(Permute, uses) + (if mark then ["--"] else []), LeftOver(Permute, uses) + more,
                    Reports(ds, Permute, uses))
  {
    var tail := if mark then ["--"] + more else [];
    UsesScanned(ds, settings, uses, tail);
    if mark {
      assert tail[1..] == more;
    }
    assert ScanAll(tail, settings) == Scan(if mark then ["--"] else [], more, []);
    assert Reports(ds, Permute, uses) + [] == Reports(ds, Permute, uses);
  }

  /** With options required to come first, everything from the first operand on is left. */
  lemma OptionsFirst(ds: seq<Declared>, settings: Settings, uses: seq<Use>, operand: string, more: seq<string>)
    requires Declarations(ds) && settings.optstring == Optstring(ds) && settings.ordering == RequireOrder
    requires forall u :: u in uses ==> Proper(ds, settings.longopts, RequireOrder, u)
    requires operand == "" || operand[0] != '-' || operand == "-"
    ensures ScanAll(RenderAll(uses) + ([operand] + more), settings)
            == Scan(RenderAll(uses), [operand] + more, Reports(ds, RequireOrder, uses))
  {
    UsesScanned(ds, settings, uses, [operand] + more);
    AllUsedUp(ds, settings.longopts, uses);
    assert Reports(ds, RequireOrder, uses) + [] == Reports(ds, RequireOrder, uses);
    assert RenderAll(uses) + [] == RenderAll(uses) && [] + ([operand] + more) == [operand] + more;
  }

  lemma {:induction false} AllUsedUp(ds: seq<Declared>, longopts: Option<seq<LongOption>>, uses: seq<Use>)
    requires forall u :: u in uses ==> Proper(ds, longopts, RequireOrder, u)
    ensures UsedUp(RequireOrder, uses) == RenderAll(uses) && LeftOver(RequireOrder, uses) == []
    decreases |uses|
  {
    if uses != [] {
      AllUsedUp(ds, longopts, uses[1..]);
    }
  }

  /** An option that needs an argument and stands last without one is reported as such. */
  lemma ArgumentMissing(ds: seq<Declared>, settings: Settings, flags: string, c: char)
    requires Declarations(ds) && settings.optstring == Optstring(ds)
    requires FlagsOnly(ds, flags) && (flags != "" ==> flags[0] != '-') && Declared(c, NeedsArgument) in ds
    ensures var line := ["-" + (flags + [c])];
            ScanAll(line, settings) == Scan(line, [], FlagEvents(ds, flags) + [MissingArgument(c)])
  {
    hide Optstring, Declarations, FlagsOnly, ArgumentOf, Accepted;
    var element := "-" + (flags + [c]);
    DeclaredMeans(ds, Declared(c, NeedsArgument));
    NoDash(ds, Declared(c, NeedsArgument));
    FlagsDecoded(ds, flags, [c], None);
    assert [c][1..] == "";
    assert element[1..] == flags + [c] && element[1] == (flags + [c])[0];
    var line: seq<string> := [element];
    assert !IsLong(element, settings) && line[..1] == line && line[1..] == [];
    assert ScanAll([], settings) == Scan([], [], []);
  }

  lemma NoDash(ds: seq<Declared>, d: Declared)
    requires Declarations(ds) && d in ds
    ensures d.c != '-' && d.c != ':'
  {
  }

  /** What is wrong with a long option that is not used properly. */
  lemma LongMistake(settings: Settings, table: seq<LongOption>, written: string, value: Option<string>)
    requires settings.longopts == Some(table) && written != "" && '=' !in written
    ensures var line := ["--" + (written + (if value.Some? then "=" + value.value else ""))];
            var s := ScanAll(line, settings);
            s.consumed == line && s.rest == []
            && ((forall j :: 0 <= j < |table| ==> !(written <= table[j].name)) ==> s.events == [Unrecognized])
            && ((forall j :: 0 <= j < |table| ==> table[j].name != written)
                && (exists i, j :: 0 <= i < j < |table| && written <= table[i].name && written <= table[j].name) ==>
                  s.events == [Ambiguous])
            && forall i: nat :: Means(table, i, written) ==>
                 (value.Some? && table[i].argument == NoArgument ==> s.events == [UnwantedArgument(i)])
                 && (value.None? && table[i].argument == RequiredArgument ==> s.events == [MissingLongArgument(i)])
  {
    hide LongMatch, IndexOf, Means, DecodeShort;
    var body := written + (if value.Some? then "=" + value.value else "");
    var line: seq<string> := ["--" + body];
    assert line[0][2..] == body && body != "" && line[0] != "--" && IsLong(line[0], settings);
    EqualsBehind(written, if value.Some? then value.value else "");
    assert written + "" == written && body[..|written|] == written;
    assert line[..1] == line && line[1..] == [] && ScanAll([], settings) == Scan([], [], []);
    forall i: nat | Means(table, i, written)
      ensures LongMatch(table, written) == Found(i) && i < |table|
    {
      MeansIsFound(table, i, written);
      MeansParts(table, i, written);
    }
    NotFound(table, written);
  }

  lemma NotFound(table: seq<LongOption>, written: string)
    ensures (forall j :: 0 <= j < |table| ==> !(written <= table[j].name)) ==> LongMatch(table, written) == NoMatch
    ensures (forall j :: 0 <= j < |table| ==> table[j].name != written)
            && (exists i, j :: 0 <= i < j < |table| && written <= table[i].name && written <= table[j].name) ==>
              LongMatch(table, written) == Several
  {
    hide LongMatch;
    LongMatchMeaning(table, written);
    if i, j :| 0 <= i < j < |table| && written <= table[i].name && written <= table[j].name {
      assert Abbreviates(table, written, i) && Abbreviates(table, written, j);
    }
    forall j: nat
      ensures Abbreviates(table, written, j) <==> j < |table| && written <= table[j].name
      ensures Names(table, written, j) <==> j < |table| && table[j].name == written
    {
    }
  }
}
