/**
 The scanner itself: a record that is carried from call to call, and a call that returns the next
 option, permuting argv in place as it goes.
 */
module Getopt {
  import opened Options
  import opened GetoptSpec
  import GetoptExchange

  // ----- the state between calls, related to the reference scan -----

  /**
   How far a scan has come: argv holds `before`, then the options `a`, the operands `n` found so far,
   the options `b` found after them, and the untouched rest; `total` is the reference scan of it all.
   */
  datatype Trace = Trace(before: seq<string>, a: seq<string>, n: seq<string>, b: seq<string>,
                         events: seq<Event>, total: Scan)

  /** What the reference scan makes of the rest, when `text` is left of the current element's short options. */
  function Pending(cfg: Config, text: string, rest: seq<string>): Scan
    requires text != "" ==> rest != []
  {
    if text == "" then ScanArgs(cfg, rest)
    else
      var d := Cluster(cfg.opts, text, NextOf(rest));
      ClusterUsesNext(cfg.opts, text, NextOf(rest));
      Prepend(d.events, rest[..Taken(d)], [], ScanArgs(cfg, rest[Taken(d)..]))
  }

  /** The position in argv: optind, first_nonopt, last_nonopt and the text at nextchar. */
  datatype Position = Position(optind: nat, first: nat, last: nat, text: string)

  ghost predicate Laid(argv: seq<string>, p: Position, t: Trace) {
    && p.first == |t.before| + |t.a| && p.last == p.first + |t.n| && p.optind == p.last + |t.b| <= |argv|
    && argv[..p.optind] == t.before + t.a + t.n + t.b
  }

  ghost predicate Scanning(cfg: Config, argv: seq<string>, p: Position, t: Trace) {
    && Laid(argv, p, t)
    && (cfg.ordering != Permute ==> t.n == [])
    && (p.text != "" ==> p.optind < |argv| && !NonOption(argv[p.optind]) && !IsLong(cfg, argv[p.optind]))
    && t.total == Prepend(t.events, t.a + t.b, t.n, Pending(cfg, p.text, argv[p.optind..]))
  }

  /** What a finished scan leaves: options first, operands last, and optind between them. */
  ghost predicate Finished(argv: seq<string>, optind: nat, t: Trace) {
    && argv == t.before + t.total.options + t.total.operands
    && optind == |t.before| + |t.total.options|
    && t.events == t.total.events
  }

  // ----- one lemma for each move of the scanner -----

  /** Exchanging puts the options found since the operands behind the earlier options. */
  lemma OptionsFirst(cfg: Config, argv: seq<string>, p: Position, t: Trace)
    requires Scanning(cfg, argv, p, t) && p.text == ""
    ensures Scanning(cfg, GetoptExchange.Exchanged(argv, p.first, p.last, p.optind),
                     Position(p.optind, p.first + (p.optind - p.last), p.optind, ""), t.(a := t.a + t.b, b := []))
  {
    var x := GetoptExchange.Exchanged(argv, p.first, p.last, p.optind);
    Blocks(argv, p, t);
    assert x[..p.optind] == t.before + (t.a + t.b) + t.n + [];
    assert x[p.optind..] == argv[p.optind..];
    assert (t.a + t.b) + [] == t.a + t.b;
  }

  lemma SkipLaid(argv: seq<string>, p: Position, t: Trace)
    requires Laid(argv, p, t) && t.b == [] && p.optind < |argv|
    ensures Laid(argv, p.(optind := p.optind + 1, last := p.optind + 1), t.(n := t.n + [argv[p.optind]]))
  {
    var x := argv[p.optind];
    assert argv[..p.optind + 1] == argv[..p.optind] + [x];
    assert t.before + t.a + t.n + [] + [x] == t.before + t.a + (t.n + [x]) + [];
  }

  lemma SkipScan(cfg: Config, argv: seq<string>, i: nat)
    requires cfg.ordering == Permute && i < |argv| && NonOption(argv[i])
    ensures ScanArgs(cfg, argv[i..]) == Prepend([], [], [argv[i]], ScanArgs(cfg, argv[i + 1..]))
  {
    var rest := argv[i..];
    assert rest[0] == argv[i] && rest[..1] == [argv[i]] && rest[1..] == argv[i + 1..];
  }

  lemma PrependOperand(events: seq<Event>, options: seq<string>, n: seq<string>, x: string, s: Scan)
    ensures Prepend(events, options, n, Prepend([], [], [x], s)) == Prepend(events, options, n + [x], s)
  {
    assert events + ([] + s.events) == events + s.events;
    assert options + ([] + s.options) == options + s.options;
    assert n + ([x] + s.operands) == (n + [x]) + s.operands;
  }

  lemma SkipOperand(cfg: Config, argv: seq<string>, p: Position, t: Trace)
    requires Scanning(cfg, argv, p, t) && p.text == "" && t.b == [] && cfg.ordering == Permute
    requires p.optind < |argv| && NonOption(argv[p.optind])
    ensures Scanning(cfg, argv, p.(optind := p.optind + 1, last := p.optind + 1), t.(n := t.n + [argv[p.optind]]))
  {
    hide ScanArgs, Prepend, Laid, NonOption;
    SkipLaid(argv, p, t);
    SkipScan(cfg, argv, p.optind);
    PrependOperand(t.events, t.a + t.b, t.n, argv[p.optind], ScanArgs(cfg, argv[p.optind + 1..]));
  }

  lemma TerminatorTotal(cfg: Config, argv: seq<string>, p: Position, t: Trace)
    requires Scanning(cfg, argv, p, t) && p.text == "" && p.optind < |argv| && argv[p.optind] == "--"
    ensures t.total == Scan(t.events, t.a + t.b + ["--"], t.n + argv[p.optind + 1..])
  {
    var rest := argv[p.optind..];
    assert rest[0] == "--" && rest[..1] == ["--"] && rest[1..] == argv[p.optind + 1..];
    assert t.events + [] == t.events;
  }

  lemma Blocks(argv: seq<string>, p: Position, t: Trace)
    requires Laid(argv, p, t)
    ensures argv[..p.first] == t.before + t.a
    ensures argv[p.first..p.last] == t.n
    ensures argv[p.last..p.optind] == t.b
  {
    var done := argv[..p.optind];
    assert argv[..p.first] == done[..p.first];
    assert argv[p.first..p.last] == done[p.first..p.last];
    assert argv[p.last..p.optind] == done[p.last..p.optind];
  }

  /** At `--` the options end; it goes before the operands skipped so far. */
  lemma AtTerminator(cfg: Config, argv: seq<string>, p: Position, t: Trace)
    requires Scanning(cfg, argv, p, t) && p.text == "" && p.optind < |argv| && argv[p.optind] == "--"
    ensures Finished(GetoptExchange.Exchanged(argv, p.first, p.last, p.optind + 1), p.optind + 1 - |t.n|, t)
    ensures t.n == [] ==> Finished(argv, p.optind + 1, t)
  {
    hide Scanning;
    TerminatorTotal(cfg, argv, p, t);
    ScanningParts(cfg, argv, p, t);
    Blocks(argv, p, t);
    var last := argv[p.optind + 1..];
    assert argv[p.last..p.optind + 1] == t.b + ["--"];
    Regroup4(t.before, t.a, t.b, ["--"], t.n, last);
    if t.n == [] {
      GetoptExchange.NothingLeft(argv, p.first, p.last, p.optind + 1);
    }
  }

  lemma ScanningParts(cfg: Config, argv: seq<string>, p: Position, t: Trace)
    requires Scanning(cfg, argv, p, t)
    ensures Laid(argv, p, t) && (p.text != "" ==> p.optind < |argv|)
  {
  }

  lemma Regroup4(u: seq<string>, v: seq<string>, w: seq<string>, x: seq<string>, y: seq<string>, z: seq<string>)
    ensures u + v + (w + x) + y + z == u + (v + w + x) + (y + z)
  {
  }

  lemma AtEnd(cfg: Config, argv: seq<string>, p: Position, t: Trace)
    requires Scanning(cfg, argv, p, t) && p.text == "" && p.optind == |argv|
    requires t.n == [] || t.b == []
    ensures Finished(argv, p.optind - |t.n|, t)
  {
    assert argv[p.optind..] == [] && argv[..p.optind] == argv;
    assert t.total == Scan(t.events + [], (t.a + t.b) + [], t.n + []);
    assert t.before + t.a + t.n + t.b == t.before + (t.a + t.b) + t.n;
  }

  lemma AtOperand(cfg: Config, argv: seq<string>, p: Position, t: Trace)
    requires Scanning(cfg, argv, p, t) && p.text == "" && p.optind < |argv| && NonOption(argv[p.optind])
    requires cfg.ordering != Permute
    ensures cfg.ordering == RequireOrder ==> Finished(argv, p.optind, t)
    ensures cfg.ordering == ReturnInOrder ==>
              var x := argv[p.optind];
              Scanning(cfg, argv, p.(optind := p.optind + 1),
                       t.(b := t.b + [x], events := t.events + [Event(1, Some(x), None, None)]))
  {
    hide ScanArgs, Prepend, NonOption;
    var x, rest := argv[p.optind], argv[p.optind..];
    assert rest[0] == x && rest[..1] == [x];
    OperandScan(cfg, rest);
    if cfg.ordering == RequireOrder {
      StopsHere(argv, p, t);
    } else {
      TakeElements(cfg, argv, p, t, Event(1, Some(x), None, None), 1);
      assert argv[p.optind..p.optind + 1] == [x];
    }
  }

  lemma OperandScan(cfg: Config, rest: seq<string>)
    requires rest != [] && NonOption(rest[0])
    ensures cfg.ordering == RequireOrder ==> ScanArgs(cfg, rest) == Scan([], [], rest)
    ensures cfg.ordering == ReturnInOrder ==>
              ScanArgs(cfg, rest)
              == Prepend([Event(1, Some(rest[0]), None, None)], rest[..1], [], ScanArgs(cfg, rest[1..]))
  {
  }

  lemma StopsHere(argv: seq<string>, p: Position, t: Trace)
    requires Laid(argv, p, t) && t.n == []
    requires t.total == Prepend(t.events, t.a + t.b, t.n, Scan([], [], argv[p.optind..]))
    ensures Finished(argv, p.optind, t)
  {
    var rest := argv[p.optind..];
    assert argv == argv[..p.optind] + rest;
    assert t.events + [] == t.events && (t.a + t.b) + [] == t.a + t.b && [] + rest == rest;
    assert t.before + t.a + [] + t.b + rest == t.before + (t.a + t.b) + rest;
  }

  lemma TakeLaid(argv: seq<string>, p: Position, t: Trace, k: nat)
    requires Laid(argv, p, t) && p.optind + k <= |argv|
    ensures Laid(argv, p.(optind := p.optind + k), t.(b := t.b + argv[p.optind..p.optind + k]))
  {
    var taken := argv[p.optind..p.optind + k];
    assert argv[..p.optind + k] == argv[..p.optind] + taken;
    assert t.before + t.a + t.n + t.b + taken == t.before + t.a + t.n + (t.b + taken);
  }

  lemma PrependElements(events: seq<Event>, a: seq<string>, b: seq<string>, n: seq<string>,
                        e: Event, x: seq<string>, s: Scan)
    ensures Prepend(events, a + b, n, Prepend([e], x, [], s)) == Prepend(events + [e], a + (b + x), n, s)
  {
    assert events + ([e] + s.events) == (events + [e]) + s.events;
    assert (a + b) + (x + s.options) == (a + (b + x)) + s.options;
    assert n + ([] + s.operands) == n + s.operands;
  }

  /** Taking `k` elements, with event `e`, off the rest. */
  lemma TakeElements(cfg: Config, argv: seq<string>, p: Position, t: Trace, e: Event, k: nat)
    requires Laid(argv, p, t) && (cfg.ordering != Permute ==> t.n == []) && p.optind + k <= |argv|
    requires t.total == Prepend(t.events, t.a + t.b, t.n,
                          Prepend([e], argv[p.optind..][..k], [], ScanArgs(cfg, argv[p.optind..][k..])))
    ensures Scanning(cfg, argv, p.(optind := p.optind + k, text := ""),
                     t.(b := t.b + argv[p.optind..p.optind + k], events := t.events + [e]))
  {
    hide ScanArgs, Prepend;
    var rest := argv[p.optind..];
    assert rest[..k] == argv[p.optind..p.optind + k] && rest[k..] == argv[p.optind + k..];
    TakeLaid(argv, p, t, k);
    PrependElements(t.events, t.a, t.b, t.n, e, rest[..k], ScanArgs(cfg, rest[k..]));
  }

  /** Starting on the short options of an element changes nothing that is pending. */
  lemma AtShort(cfg: Config, argv: seq<string>, p: Position, t: Trace)
    requires Scanning(cfg, argv, p, t) && p.text == "" && p.optind < |argv|
    requires !NonOption(argv[p.optind]) && argv[p.optind] != "--" && !IsLong(cfg, argv[p.optind])
    ensures Scanning(cfg, argv, p.(text := argv[p.optind][1..]), t)
  {
    assert argv[p.optind..][0] == argv[p.optind];
  }

  /** Whether the short option at the head of `text` leaves further ones in the same element. */
  predicate GoesOn(opts: string, text: string)
    requires text != ""
  {
    (KindOf(opts, text[0]) == Unknown || KindOf(opts, text[0]) == NoArg) && |text| > 1
  }

  lemma ClusterStep(opts: string, text: string, next: Option<string>)
    requires text != ""
    ensures var d := Cluster(opts, text, next);
            && d.events != [] && (d.usesNext ==> next.Some?)
            && (GoesOn(opts, text) ==>
                  var d' := Cluster(opts, text[1..], next);
                  d.usesNext == d'.usesNext && d.events == [d.events[0]] + d'.events)
            && (!GoesOn(opts, text) ==> d.events == [d.events[0]])
  {
    hide KindOf;
    ClusterUsesNext(opts, text, next);
  }

  function ArgAfter(argv: seq<string>, optind: nat): Option<string> {
    if optind + 1 < |argv| then Some(argv[optind + 1]) else None
  }

  lemma CharGoesOn(cfg: Config, argv: seq<string>, p: Position, t: Trace)
    requires Scanning(cfg, argv, p, t) && p.text != "" && GoesOn(cfg.opts, p.text)
    ensures var d := Cluster(cfg.opts, p.text, ArgAfter(argv, p.optind));
            && d.events != []
            && Scanning(cfg, argv, p.(text := p.text[1..]), t.(events := t.events + [d.events[0]]))
  {
    hide ScanArgs, Cluster, KindOf;
    var rest := argv[p.optind..];
    assert NextOf(rest) == ArgAfter(argv, p.optind);
    ClusterStep(cfg.opts, p.text, NextOf(rest));
    var d, d' := Cluster(cfg.opts, p.text, NextOf(rest)), Cluster(cfg.opts, p.text[1..], NextOf(rest));
    var s, e := ScanArgs(cfg, rest[Taken(d)..]), d.events[0];
    assert t.events + ([e] + d'.events + s.events) == (t.events + [e]) + (d'.events + s.events);
  }

  lemma CharEnds(cfg: Config, argv: seq<string>, p: Position, t: Trace)
    requires Scanning(cfg, argv, p, t) && p.text != "" && !GoesOn(cfg.opts, p.text)
    ensures var d := Cluster(cfg.opts, p.text, ArgAfter(argv, p.optind));
            && d.events != [] && p.optind + Taken(d) <= |argv|
            && Scanning(cfg, argv, p.(optind := p.optind + Taken(d), text := ""),
                        t.(b := t.b + argv[p.optind..p.optind + Taken(d)], events := t.events + [d.events[0]]))
  {
    hide ScanArgs, Cluster, GoesOn;
    var rest := argv[p.optind..];
    assert NextOf(rest) == ArgAfter(argv, p.optind);
    ClusterStep(cfg.opts, p.text, NextOf(rest));
    var d := Cluster(cfg.opts, p.text, NextOf(rest));
    TakeElements(cfg, argv, p, t, d.events[0], Taken(d));
  }

  lemma AtLong(cfg: Config, argv: seq<string>, p: Position, t: Trace)
    requires Scanning(cfg, argv, p, t) && p.text == "" && p.optind < |argv|
    requires !NonOption(argv[p.optind]) && argv[p.optind] != "--" && IsLong(cfg, argv[p.optind])
    ensures var d := Long(cfg.opts, cfg.longopts.value, argv[p.optind][2..], ArgAfter(argv, p.optind));
            && |d.events| == 1 && p.optind + Taken(d) <= |argv|
            && Scanning(cfg, argv, p.(optind := p.optind + Taken(d)),
                        t.(b := t.b + argv[p.optind..p.optind + Taken(d)], events := t.events + [d.events[0]]))
  {
    hide ScanArgs, Prepend, Laid, Long, NonOption;
    var rest := argv[p.optind..];
    assert rest[0] == argv[p.optind] && NextOf(rest) == ArgAfter(argv, p.optind);
    LongScan(cfg, rest);
    var d := Element(cfg, rest[0], NextOf(rest));
    TakeElements(cfg, argv, p, t, d.events[0], Taken(d));
  }

  lemma LongScan(cfg: Config, rest: seq<string>)
    requires rest != [] && !NonOption(rest[0]) && rest[0] != "--" && IsLong(cfg, rest[0])
    ensures var d := Element(cfg, rest[0], NextOf(rest));
            && |d.events| == 1 && Taken(d) <= |rest|
            && ScanArgs(cfg, rest)
               == Prepend([d.events[0]], rest[..Taken(d)], [], ScanArgs(cfg, rest[Taken(d)..]))
  {
    hide LongMatch, NameLength;
    ElementFits(cfg, rest);
    var d := Element(cfg, rest[0], NextOf(rest));
    assert d.events == [d.events[0]];
  }

  // ----- the scanner -----

  function Strip(optstring: string): string {
    if CharAt(optstring, 0, '-') || CharAt(optstring, 0, '+') then optstring[1..] else optstring
  }

  function OrderingOf(optstring: string, posixlyCorrect: bool): Ordering {
    if CharAt(optstring, 0, '-') then ReturnInOrder
    else if CharAt(optstring, 0, '+') || posixlyCorrect then RequireOrder
    else Permute
  }

  /** The loop over the table of long options. */
  method LookUp(longopts: seq<LongOpt>, name: string) returns (m: Match)
    ensures m == LongMatch(longopts, name)
  {
    hide LongMatch;
    var pfound: Option<nat> := None;
    var ambig := false;
    for i := 0 to |longopts|
      invariant forall j :: 0 <= j < i ==> longopts[j].name != name
      invariant pfound.None? ==> !ambig && forall j :: 0 <= j < i ==> !Abbreviates(name, longopts[j])
      invariant pfound.Some? ==> pfound.value < i && FirstAbbreviated(longopts, name, pfound.value)
      invariant pfound.Some? && !ambig ==>
                  forall j :: 0 <= j < i && Abbreviates(name, longopts[j]) ==> Same(longopts[pfound.value], longopts[j])
      invariant ambig ==> pfound.Some? && exists j :: 0 <= j < i && Abbreviates(name, longopts[j])
                                                      && !Same(longopts[pfound.value], longopts[j])
    {
      var p := longopts[i];
      if name <= p.name {
        if |name| == |p.name| {
          DenotesUnique(longopts, name, Found(i), LongMatch(longopts, name));
          return Found(i);
        } else if pfound.None? {
          pfound := Some(i);
        } else if !Same(longopts[pfound.value], p) {
          ambig := true;
        }
      }
    }
    m := if ambig then Ambiguous else if pfound.Some? then Found(pfound.value) else NotFound;
    DenotesUnique(longopts, name, m, LongMatch(longopts, name));
  }

  function Min(a: nat, b: nat): nat {
    if a > b then b else a
  }

  class GetoptData {
    var optind: nat
    var optopt: int
    var optarg: Option<string>
    var initialized: bool
    var nextchar: Option<string>
    var ordering: Ordering
    var firstNonopt: nat
    var lastNonopt: nat

    ghost var trace: Trace

    constructor ()
      ensures optind == 1 && !initialized
    {
      optind, optopt, optarg, initialized, nextchar := 1, 0, None, false, None;
      ordering, firstNonopt, lastNonopt := Permute, 0, 0;
    }

    /** The text at nextchar; a null pointer and an empty string mean the same. */
    function Text(): string
      reads this`nextchar
    {
      if nextchar.Some? then nextchar.value else ""
    }

    ghost function Here(): Position
      reads this`optind, this`firstNonopt, this`lastNonopt, this`nextchar
    {
      Position(optind, firstNonopt, lastNonopt, Text())
    }

    ghost predicate Valid(argv: array<string>, cfg: Config)
      reads this, argv
    {
      && initialized && optind > 0 && ordering == cfg.ordering && NoW(cfg.opts)
      && Scanning(cfg, argv[..], Here(), trace)
    }

    /** optarg and, after an error, optopt are those of the event returned. */
    predicate Reports(e: Event)
      reads this`optarg, this`optopt
    {
      optarg == e.arg && (e.bad.Some? ==> optopt == e.bad.value)
    }

    /** The characters of argv[optind] that are still to be scanned. */
    function Unscanned(argv: array<string>): nat
      reads this, argv
    {
      if optind >= argv.Length then 0 else if Text() == "" then |argv[optind]| else |Text()|
    }

    // ----- the short option at nextchar -----

    /** Handles one character: the result is the first event of what is left of the element. */
    method DecodeChar(argv: array<string>, opts: string) returns (e: Event)
      requires Text() != "" && optind < argv.Length && NoW(opts)
      modifies this`optind, this`optopt, this`optarg, this`nextchar
      ensures var d := Cluster(opts, old(Text()), ArgAfter(argv[..], old(optind)));
              && d.events != [] && e == d.events[0]
              && (if GoesOn(opts, old(Text())) then optind == old(optind) && Text() == old(Text())[1..]
                  else optind == old(optind) + Taken(d) && Text() == "")
      ensures Reports(e)
    {
      var c, rest := Text()[0], Text()[1..];
      assert KindOf(opts, c) in {Unknown, NoArg} && rest == "" ==> Cluster(opts, rest, None).events == [];
      optarg := None;
      nextchar := Some(rest);
      var temp := StrChr(opts, c);
      if rest == "" {
        optind := optind + 1;
      }
      if temp.None? || c == ':' || c == ';' {
        optopt := c as int;
        e := Event('?' as int, None, Some(c as int), None);
      } else if CharAt(opts, temp.value + 1, ':') {
        e := TakeArgument(argv, opts, c, rest, CharAt(opts, temp.value + 2, ':'));
      } else {
        e := Event(c as int, None, None, None);
      }
    }

    method ShortOption(argv: array<string>, cfg: Config) returns (e: Event)
      requires Valid(argv, cfg) && Text() != ""
      modifies this`optind, this`optopt, this`optarg, this`nextchar, this`trace
      ensures Valid(argv, cfg) && trace.total == old(trace.total) && trace.before == old(trace.before)
      ensures trace.events == old(trace.events) + [e] && Reports(e)
      ensures optind > old(optind) || (optind == old(optind) && 0 < |Text()| < |old(Text())|)
    {
      hide Scanning, Cluster, NoW, KindOf;
      ghost var s, here, t := argv[..], Here(), trace;
      ghost var d := Cluster(cfg.opts, Text(), ArgAfter(s, optind));
      ScanningParts(cfg, s, here, t);
      if GoesOn(cfg.opts, Text()) {
        CharGoesOn(cfg, s, here, t);
        t := t.(events := t.events + [d.events[0]]);
      } else {
        CharEnds(cfg, s, here, t);
        t := t.(b := t.b + s[optind..optind + Taken(d)], events := t.events + [d.events[0]]);
      }
      e := DecodeChar(argv, cfg.opts);
      trace := t;
    }

    method TakeArgument(argv: array<string>, opts: string, c: char, rest: string, optional: bool) returns (e: Event)
      requires optind <= argv.Length && optarg == None
      modifies this`optind, this`optopt, this`optarg, this`nextchar
      ensures nextchar == None
      ensures rest != "" ==> optind == old(optind) + 1
      ensures rest != "" ==> optarg == Some(rest) && e == Event(c as int, Some(rest), None, None)
      ensures rest == "" && optional ==>
                optind == old(optind) && optarg == None && e == Event(c as int, None, None, None)
      ensures rest == "" && !optional && old(optind) == argv.Length ==>
                optind == old(optind) && optarg == None && optopt == c as int
                && e == Event(MissingCode(opts), None, Some(c as int), None)
      ensures rest == "" && !optional && old(optind) < argv.Length ==>
                optind == old(optind) + 1 && optarg == Some(argv[old(optind)])
                && e == Event(c as int, Some(argv[old(optind)]), None, None)
    {
      var code := c as int;
      var bad := None;
      if rest != "" {
        optarg := Some(rest);
        optind := optind + 1;
      } else if optional {
        optarg := None;
      } else if optind == argv.Length {
        optopt := c as int;
        bad := Some(c as int);
        code := if CharAt(opts, 0, ':') then ':' as int else '?' as int;
      } else {
        optarg := Some(argv[optind]);
        optind := optind + 1;
      }
      nextchar := None;
      e := Event(code, optarg, bad, None);
    }

    // ----- the long option at argv[optind] -----

    method DecodeLong(argv: array<string>, opts: string, longopts: seq<LongOpt>) returns (e: Event)
      requires optind < argv.Length && |argv[optind]| >= 2
      modifies this`optind, this`optopt, this`optarg, this`nextchar
      ensures var d := Long(opts, longopts, argv[old(optind)][2..], ArgAfter(argv[..], old(optind)));
              d.events == [e] && optind == old(optind) + Taken(d) && Text() == ""
      ensures Reports(e)
    {
      hide LongMatch, NameLength;
      var text := argv[optind][2..];
      var n := NameLength(text);
      var m := LookUp(longopts, text[..n]);
      optarg := None;
      optind := optind + 1;
      nextchar := Some("");
      if !m.Found? {
        optopt := 0;
        return Event('?' as int, None, Some(0), None);
      }
      var p := longopts[m.index];
      if n < |text| {
        if p.hasArg == 0 {
          optopt := p.val;
          return Event('?' as int, None, Some(p.val), None);
        }
        optarg := Some(text[n + 1..]);
      } else if p.hasArg == 1 {
        if optind < argv.Length {
          optarg := Some(argv[optind]);
          optind := optind + 1;
        } else {
          optopt := p.val;
          return Event(if CharAt(opts, 0, ':') then ':' as int else '?' as int, None, Some(p.val), None);
        }
      }
      return Event(if p.flag.Some? then 0 else p.val, optarg, None, Some(m.index));
    }

    method LongOption(argv: array<string>, cfg: Config) returns (e: Event)
      requires Valid(argv, cfg) && Text() == "" && optind < argv.Length
      requires !NonOption(argv[optind]) && argv[optind] != "--" && IsLong(cfg, argv[optind])
      modifies this`optind, this`optopt, this`optarg, this`nextchar, this`trace
      ensures Valid(argv, cfg) && trace.total == old(trace.total) && trace.before == old(trace.before)
      ensures trace.events == old(trace.events) + [e] && Reports(e)
      ensures optind > old(optind)
    {
      hide Scanning, Long, NoW, NonOption;
      ghost var s, t := argv[..], trace;
      ghost var d := Long(cfg.opts, cfg.longopts.value, s[optind][2..], ArgAfter(s, optind));
      AtLong(cfg, s, Here(), t);
      t := t.(b := t.b + s[optind..optind + Taken(d)], events := t.events + [d.events[0]]);
      e := DecodeLong(argv, cfg.opts, cfg.longopts.value);
      trace := t;
    }

    // ----- between elements -----

    method DoExchange(argv: array<string>)
      requires firstNonopt <= lastNonopt <= optind <= argv.Length
      modifies argv, this`firstNonopt, this`lastNonopt
      ensures argv[..] == GetoptExchange.Exchanged(old(argv[..]), old(firstNonopt), old(lastNonopt), optind)
      ensures firstNonopt == old(firstNonopt) + (optind - old(lastNonopt)) && lastNonopt == optind
      ensures forall i :: optind <= i < argv.Length ==> argv[i] == old(argv[i])
    {
      GetoptExchange.Exchange(argv, firstNonopt, lastNonopt, optind);
      firstNonopt := firstNonopt + (optind - lastNonopt);
      lastNonopt := optind;
      assert forall i :: optind <= i < argv.Length ==> argv[..][i] == old(argv[..])[i];
    }

    /** When permuting: brings the options found since the last operands before them. */
    method BringForward(argv: array<string>, cfg: Config)
      requires Valid(argv, cfg) && Text() == ""
      modifies argv, this`firstNonopt, this`lastNonopt, this`trace
      ensures Scanning(cfg, argv[..], Position(optind, firstNonopt, optind, ""), trace)
      ensures trace == old(trace).(a := old(trace.a + trace.b), b := [])
      ensures forall i :: optind <= i < argv.Length ==> argv[i] == old(argv[i])
    {
      hide ScanArgs, Prepend, NoW, Pending, NonOption, IsLong, GetoptExchange.Exchanged;
      ghost var s, here, t := argv[..], Here(), trace;
      OptionsFirst(cfg, s, here, t);
      trace := t.(a := t.a + t.b, b := []);
      if firstNonopt != lastNonopt && lastNonopt != optind {
        DoExchange(argv);
      } else {
        GetoptExchange.NothingLeft(s, firstNonopt, lastNonopt, optind);
        assert argv[..] == s;
        if lastNonopt != optind {
          firstNonopt := optind;
        }
      }
    }

    /** Then skips the operands that follow. */
    method SkipOperands(argv: array<string>, cfg: Config)
      requires initialized && optind > 0 && ordering == cfg.ordering && NoW(cfg.opts) && ordering == Permute
      requires Scanning(cfg, argv[..], Position(optind, firstNonopt, optind, ""), trace)
      requires trace.b == [] && Text() == ""
      modifies this`optind, this`lastNonopt, this`trace
      ensures Valid(argv, cfg) && trace.total == old(trace.total) && trace.before == old(trace.before)
      ensures trace.events == old(trace.events) && trace.b == [] && optind >= old(optind)
      ensures optind == argv.Length || !NonOption(argv[optind])
    {
      hide Scanning, NoW, NonOption;
      ScanningParts(cfg, argv[..], Position(optind, firstNonopt, optind, ""), trace);
      while optind < argv.Length && NonOption(argv[optind])
        invariant old(optind) <= optind <= argv.Length
        invariant Scanning(cfg, argv[..], Position(optind, firstNonopt, optind, ""), trace) && trace.b == []
        invariant trace.total == old(trace.total) && trace.before == old(trace.before)
        invariant trace.events == old(trace.events)
      {
        SkipOperand(cfg, argv[..], Position(optind, firstNonopt, optind, ""), trace);
        trace := trace.(n := trace.n + [argv[optind]]);
        optind := optind + 1;
      }
      lastNonopt := optind;
    }

    /** At `--`: moves it before the operands and leaves everything after it to the caller. */
    method EndAtTerminator(argv: array<string>, cfg: Config)
      requires Valid(argv, cfg) && Text() == "" && optind < argv.Length && argv[optind] == "--"
      requires trace.n == [] || trace.b == []
      modifies argv, this`optind, this`firstNonopt, this`lastNonopt
      ensures Finished(argv[..], optind, trace)
    {
      hide Scanning, NoW, GetoptExchange.Exchanged, Finished;
      ghost var s := argv[..];
      ScanningParts(cfg, s, Here(), trace);
      AtTerminator(cfg, s, Here(), trace);
      optind := optind + 1;
      if firstNonopt != lastNonopt && lastNonopt != optind {
        DoExchange(argv);
      } else if firstNonopt == lastNonopt {
        firstNonopt := optind;
        assert argv[..] == s;
      }
      lastNonopt := argv.Length;
      optind := argv.Length;
      if firstNonopt != lastNonopt {
        optind := firstNonopt;
      }
    }

    // ----- one call -----

    /** The first call: nothing is scanned yet. */
    method Initialize(argv: array<string>, cfg: Config)
      requires 0 < optind <= argv.Length && NoW(cfg.opts)
      modifies this
      ensures Valid(argv, cfg) && Text() == "" && optind == old(optind) && ordering == cfg.ordering
      ensures trace.before == argv[..optind] && trace.events == [] && trace.total == ScanArgs(cfg, argv[optind..])
    {
      hide ScanArgs, NoW;
      firstNonopt, lastNonopt := optind, optind;
      nextchar := None;
      ordering := cfg.ordering;
      initialized := true;
      trace := Trace(argv[..optind], [], [], [], [], ScanArgs(cfg, argv[optind..]));
      assert argv[..][..optind] == argv[..optind] && argv[..][optind..] == argv[optind..];
    }

    /** Between elements: finds the next one to decode, returns an operand in order, or ends the scan. */
    method Advance(argv: array<string>, cfg: Config) returns (ended: bool, operand: Option<Event>)
      requires Valid(argv, cfg) && Text() == ""
      modifies argv, this`optind, this`optarg, this`firstNonopt, this`lastNonopt, this`trace
      ensures trace.total == old(trace.total) && trace.before == old(trace.before)
      ensures ended ==> Finished(argv[..], optind, trace) && trace.events == old(trace.events)
      ensures ended ==> optarg == old(optarg)
      ensures !ended ==> Valid(argv, cfg) && optind >= old(optind)
      ensures !ended && operand.Some? ==>
                && optind > old(optind) && Reports(operand.value)
                && trace.events == old(trace.events) + [operand.value]
      ensures !ended && operand.None? ==>
                && optind < argv.Length && !NonOption(argv[optind]) && argv[optind] != "--"
                && trace.events == old(trace.events)
      ensures !ended && operand.None? && optind == old(optind) ==> argv[optind] == old(argv[optind])
    {
      hide Scanning, NoW, NonOption, Finished;
      ScanningFacts(cfg, argv[..], Here(), trace);
      lastNonopt := Min(lastNonopt, optind);
      firstNonopt := Min(firstNonopt, optind);
      if ordering == Permute {
        BringForward(argv, cfg);
        SkipOperands(argv, cfg);
      }
      ended, operand := Classify(argv, cfg);
    }

    /** Looks at argv[optind], before which no operand is left to be moved. */
    method Classify(argv: array<string>, cfg: Config) returns (ended: bool, operand: Option<Event>)
      requires Valid(argv, cfg) && Text() == "" && (trace.n == [] || trace.b == [])
      requires ordering == Permute ==> optind == argv.Length || !NonOption(argv[optind])
      modifies argv, this`optind, this`optarg, this`firstNonopt, this`lastNonopt, this`trace
      ensures trace.total == old(trace.total) && trace.before == old(trace.before)
      ensures ended ==> Finished(argv[..], optind, trace) && trace.events == old(trace.events)
      ensures ended ==> optarg == old(optarg)
      ensures !ended ==> Valid(argv, cfg) && argv[..] == old(argv[..])
      ensures !ended && operand.Some? ==>
                && optind > old(optind) && Reports(operand.value)
                && trace.events == old(trace.events) + [operand.value]
      ensures !ended && operand.None? ==>
                && optind == old(optind) < argv.Length && !NonOption(argv[optind]) && argv[optind] != "--"
                && trace.events == old(trace.events)
    {
      hide Scanning, NoW, NonOption, Finished;
      ScanningFacts(cfg, argv[..], Here(), trace);
      operand := None;
      if optind != argv.Length && argv[optind] == "--" {
        EndAtTerminator(argv, cfg);
        return true, None;
      }
      if optind == argv.Length {
        AtEnd(cfg, argv[..], Here(), trace);
        if firstNonopt != lastNonopt {
          optind := firstNonopt;
        }
        return true, None;
      }
      if NonOption(argv[optind]) {
        AtOperand(cfg, argv[..], Here(), trace);
        if ordering == RequireOrder {
          return true, None;
        }
        var e := Event(1, Some(argv[optind]), None, None);
        trace := trace.(b := trace.b + [argv[optind]], events := trace.events + [e]);
        optarg := Some(argv[optind]);
        optind := optind + 1;
        return false, Some(e);
      }
      return false, None;
    }

    /**
     One call of getopt; None is the return value -1. Every other return makes progress: optind
     advances, or it stays and fewer characters of argv[optind] are left.
     */
    method Next(argv: array<string>, cfg: Config) returns (r: Option<Event>)
      requires Valid(argv, cfg)
      modifies argv, this
      ensures trace.total == old(trace.total) && trace.before == old(trace.before) && ordering == old(ordering)
      ensures r.None? ==> Finished(argv[..], optind, trace) && trace.events == old(trace.events)
      ensures r.Some? ==> Valid(argv, cfg) && trace.events == old(trace.events) + [r.value] && Reports(r.value)
      ensures r.None? ==> optarg == None
      ensures r.Some? ==> firstNonopt <= lastNonopt <= optind <= argv.Length
      ensures r.Some? ==> optind > old(optind) || (optind == old(optind) && Unscanned(argv) < old(Unscanned(argv)))
    {
      hide Scanning, NoW, NonOption, Finished;
      optarg := None;
      if Text() == "" {
        var ended, operand := Advance(argv, cfg);
        if ended {
          return None;
        }
        ScanningFacts(cfg, argv[..], Here(), trace);
        if operand.Some? {
          return operand;
        }
        var e := FirstOfElement(argv, cfg);
        r := Some(e);
      } else {
        ScanningFacts(cfg, argv[..], Here(), trace);
        var e := ShortOption(argv, cfg);
        r := Some(e);
      }
      ScanningFacts(cfg, argv[..], Here(), trace);
    }

    /** The call as the library makes it: the first one initializes, and an empty argv ends at once. */
    method Call(argv: array<string>, optstring: string, longopts: Option<seq<LongOpt>>, posixlyCorrect: bool)
      returns (r: Option<Event>)
      requires optind <= argv.Length && NoW(Strip(optstring))
      requires argv.Length > 0 && initialized && optind > 0 ==> Valid(argv, ConfigOf(optstring, longopts, ordering))
      modifies argv, this
      ensures argv.Length == 0 ==> r == None && unchanged(this)
      ensures var first := old(!initialized || optind == 0);
              var start := if old(optind) == 0 then 1 else old(optind);
              argv.Length > 0 ==>
                && ordering == (if first then OrderingOf(optstring, posixlyCorrect) else old(ordering))
                && trace.total == (if first then ScanArgs(ConfigOf(optstring, longopts, ordering), old(argv[start..]))
                                   else old(trace.total))
                && trace.before == (if first then old(argv[..start]) else old(trace.before))
                && (r.None? ==> Finished(argv[..], optind, trace)
                                && trace.events == if first then [] else old(trace.events))
                && (r.Some? ==> Valid(argv, ConfigOf(optstring, longopts, ordering)) && Reports(r.value)
                                && trace.events == (if first then [] else old(trace.events)) + [r.value])
                && (r.Some? && !first ==>
                      optind > old(optind) || (optind == old(optind) && Unscanned(argv) < old(Unscanned(argv))))
    {
      hide Scanning, ScanArgs, NoW, Finished;
      if argv.Length < 1 {
        return None;
      }
      if optind == 0 || !initialized {
        if optind == 0 {
          optind := 1;
        }
        Initialize(argv, ConfigOf(optstring, longopts, OrderingOf(optstring, posixlyCorrect)));
      }
      r := Next(argv, ConfigOf(optstring, longopts, ordering));
    }

    /** Decodes a long option, or the first short option of an element. */
    method FirstOfElement(argv: array<string>, cfg: Config) returns (e: Event)
      requires Valid(argv, cfg) && Text() == "" && optind < argv.Length
      requires !NonOption(argv[optind]) && argv[optind] != "--"
      modifies this`optind, this`optopt, this`optarg, this`nextchar, this`trace
      ensures Valid(argv, cfg) && trace.total == old(trace.total) && trace.before == old(trace.before)
      ensures trace.events == old(trace.events) + [e] && Reports(e)
      ensures optind > old(optind) || (optind == old(optind) && 0 < |Text()| < |argv[optind]|)
    {
      hide Scanning, NoW;
      if IsLong(cfg, argv[optind]) {
        e := LongOption(argv, cfg);
      } else {
        AtShort(cfg, argv[..], Here(), trace);
        nextchar := Some(argv[optind][1..]);
        e := ShortOption(argv, cfg);
      }
    }
  }

  function ConfigOf(optstring: string, longopts: Option<seq<LongOpt>>, ordering: Ordering): Config {
    Config(Strip(optstring), longopts, ordering)
  }

  /**
   Calls getopt until it returns -1. Whatever the ordering, the caller has then seen exactly the
   reference events, argv holds the elements before optind, the options and the operands, each in
   their original order, and optind is at the first operand.
   */
  method ScanAll(d: GetoptData, argv: array<string>, optstring: string, longopts: Option<seq<LongOpt>>,
                 posixlyCorrect: bool)
    returns (events: seq<Event>)
    requires !d.initialized && d.optind <= argv.Length && NoW(Strip(optstring))
    modifies d, argv
    ensures argv.Length > 0 ==>
              var start := if old(d.optind) == 0 then 1 else old(d.optind);
              var cfg := ConfigOf(optstring, longopts, OrderingOf(optstring, posixlyCorrect));
              var s := ScanArgs(cfg, old(argv[start..]));
              && events == s.events
              && argv[..] == old(argv[..start]) + s.options + s.operands
              && d.optind == start + |s.options|
    ensures argv.Length == 0 ==> events == [] && d.optind == old(d.optind)
  {
    hide Scanning, ScanArgs, NoW;
    events := [];
    var r := d.Call(argv, optstring, longopts, posixlyCorrect);
    if argv.Length == 0 {
      return;
    }
    ghost var cfg := ConfigOf(optstring, longopts, OrderingOf(optstring, posixlyCorrect));
    ghost var total, before := d.trace.total, d.trace.before;
    while r.Some?
      invariant d.trace.total == total && d.trace.before == before
      invariant r.Some? ==> d.Valid(argv, cfg) && d.trace.events == events + [r.value]
      invariant r.None? ==> Finished(argv[..], d.optind, d.trace) && d.trace.events == events
      decreases r.Some?, argv.Length - d.optind, d.Unscanned(argv)
    {
      events := events + [r.value];
      ScanningFacts(cfg, argv[..], d.Here(), d.trace);
      r := d.Call(argv, optstring, longopts, posixlyCorrect);
    }
  }

  lemma ScanningFacts(cfg: Config, argv: seq<string>, p: Position, t: Trace)
    requires Scanning(cfg, argv, p, t)
    ensures p.first <= p.last <= p.optind <= |argv| && p.last == p.first + |t.n| && p.optind == p.last + |t.b|
    ensures cfg.ordering != Permute ==> t.n == []
    ensures p.text != "" ==> p.optind < |argv| && !NonOption(argv[p.optind]) && !IsLong(cfg, argv[p.optind])
  {
  }
}
