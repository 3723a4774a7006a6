/**
 What a complete scan of the arguments must yield, stated on the unpermuted arguments: which
 elements are options or option arguments, which are operands, and which events the caller sees.
 */
module GetoptSpec {
  import opened Options

  datatype Ordering = RequireOrder | Permute | ReturnInOrder

  /** An entry of the table of long options; `flag` is the address of a variable, if any. */
  datatype LongOpt = LongOpt(name: string, hasArg: int, flag: Option<nat>, val: int)

  /** The option string without its leading ordering character, the long options, and the ordering. */
  datatype Config = Config(opts: string, longopts: Option<seq<LongOpt>>, ordering: Ordering)

  /** One return of getopt: its value, optarg, what it stored in optopt and in *longind, if anything. */
  datatype Event = Event(code: int, arg: Option<string>, bad: Option<int>, longIndex: Option<nat>)

  // ----- short options -----

  /** strchr. */
  function StrChr(s: string, c: char): (r: Option<nat>)
    ensures r.Some? ==> r.value < |s| && s[r.value] == c && c !in s[..r.value]
    ensures r.None? ==> c !in s
  {
    if s == "" then None
    else if s[0] == c then Some(0)
    else
      var r := StrChr(s[1..], c);
      assert r.Some? ==> s[..r.value + 1] == [s[0]] + s[1..][..r.value];
      if r.None? then None else Some(r.value + 1)
  }

  predicate CharAt(s: string, i: nat, c: char) {
    i < |s| && s[i] == c
  }

  /** The option string does not ask for `-W foo` to mean `--foo`. */
  predicate NoW(opts: string) {
    var w := StrChr(opts, 'W');
    w.Some? ==> !CharAt(opts, w.value + 1, ';')
  }

  datatype ArgKind = Unknown | NoArg | OptionalArg | RequiredArg

  function KindOf(opts: string, c: char): ArgKind {
    var temp := StrChr(opts, c);
    if temp.None? || c == ':' || c == ';' then Unknown
    else if !CharAt(opts, temp.value + 1, ':') then NoArg
    else if CharAt(opts, temp.value + 2, ':') then OptionalArg
    else RequiredArg
  }

  /** What to return when a required argument is missing. */
  function MissingCode(opts: string): int {
    if CharAt(opts, 0, ':') then ':' as int else '?' as int
  }

  /** The events of an element, and whether the following element is the argument of its last option. */
  datatype Decoded = Decoded(events: seq<Event>, usesNext: bool)

  /** The short options `s` of one element, when the following element is `next`. */
  function Cluster(opts: string, s: string, next: Option<string>): Decoded {
    if s == "" then Decoded([], false)
    else
      var c, rest := s[0], s[1..];
      match KindOf(opts, c)
      case Unknown =>
        var d := Cluster(opts, rest, next);
        d.(events := [Event('?' as int, None, Some(c as int), None)] + d.events)
      case NoArg =>
        var d := Cluster(opts, rest, next);
        d.(events := [Event(c as int, None, None, None)] + d.events)
      case OptionalArg =>
        Decoded([Event(c as int, if rest == "" then None else Some(rest), None, None)], false)
      case RequiredArg =>
        if rest != "" then Decoded([Event(c as int, Some(rest), None, None)], false)
        else if next.None? then Decoded([Event(MissingCode(opts), None, Some(c as int), None)], false)
        else Decoded([Event(c as int, next, None, None)], true)
  }

  // ----- long options -----

  /** The length of the name before `=`. */
  function NameLength(s: string): (n: nat)
    ensures n <= |s| && '=' !in s[..n] && (n < |s| ==> s[n] == '=')
  {
    var eq := StrChr(s, '=');
    assert s[..|s|] == s;
    if eq.None? then |s| else eq.value
  }

  datatype Match = NotFound | Ambiguous | Found(index: nat)

  predicate Abbreviates(name: string, o: LongOpt) {
    name <= o.name
  }

  predicate Same(o: LongOpt, p: LongOpt) {
    o.hasArg == p.hasArg && o.flag == p.flag && o.val == p.val
  }

  ghost predicate FirstExact(longopts: seq<LongOpt>, name: string, i: nat) {
    i < |longopts| && longopts[i].name == name && forall j :: 0 <= j < i ==> longopts[j].name != name
  }

  ghost predicate FirstAbbreviated(longopts: seq<LongOpt>, name: string, i: nat) {
    && i < |longopts| && name <= longopts[i].name
    && forall j :: 0 <= j < i ==> !(name <= longopts[j].name)
  }

  /**
   A name denotes the first option of exactly that name; failing that, it is an abbreviation of the
   options it is a prefix of, which must all mean the same, or else it is ambiguous.
   */
  ghost predicate Denotes(longopts: seq<LongOpt>, name: string, m: Match) {
    if exists o :: o in longopts && o.name == name then m.Found? && FirstExact(longopts, name, m.index)
    else match m
      case NotFound => forall o :: o in longopts ==> !(name <= o.name)
      case Found(i) =>
        FirstAbbreviated(longopts, name, i)
        && forall o :: o in longopts && name <= o.name ==> o.(name := "") == longopts[i].(name := "")
      case Ambiguous =>
        exists o, p :: o in longopts && p in longopts && name <= o.name && name <= p.name
                       && o.(name := "") != p.(name := "")
  }

  lemma DenotesUnique(longopts: seq<LongOpt>, name: string, m: Match, m': Match)
    requires Denotes(longopts, name, m) && Denotes(longopts, name, m')
    ensures m == m'
  {
    if m.Found? && m'.Found? {
      assert longopts[m.index] in longopts && longopts[m'.index] in longopts;
    }
  }

  function FindExact(longopts: seq<LongOpt>, name: string, i: nat): (r: Option<nat>)
    requires i <= |longopts|
    ensures r.Some? ==> i <= r.value < |longopts| && longopts[r.value].name == name
    ensures forall j :: i <= j < |longopts| && (r.Some? ==> j < r.value) ==> longopts[j].name != name
    decreases |longopts| - i
  {
    if i == |longopts| then None
    else if longopts[i].name == name then Some(i)
    else FindExact(longopts, name, i + 1)
  }

  function FindAbbreviated(longopts: seq<LongOpt>, name: string, i: nat): (r: Option<nat>)
    requires i <= |longopts|
    ensures r.Some? ==> i <= r.value < |longopts| && Abbreviates(name, longopts[r.value])
    ensures forall j :: i <= j < |longopts| && (r.Some? ==> j < r.value) ==> !Abbreviates(name, longopts[j])
    decreases |longopts| - i
  {
    if i == |longopts| then None
    else if Abbreviates(name, longopts[i]) then Some(i)
    else FindAbbreviated(longopts, name, i + 1)
  }

  /** The option a name denotes. */
  function LongMatch(longopts: seq<LongOpt>, name: string): (m: Match)
    ensures Denotes(longopts, name, m)
  {
    var exact := FindExact(longopts, name, 0);
    if exact.Some? then
      assert longopts[exact.value] in longopts;
      Found(exact.value)
    else
      var first := FindAbbreviated(longopts, name, 0);
      if first.None? then NotFound
      else if forall o :: o in longopts && Abbreviates(name, o) ==> Same(longopts[first.value], o) then
        Found(first.value)
      else
        assert longopts[first.value] in longopts;
        Ambiguous
  }

  /** The long option `s`, given without its dashes, when the following element is `next`. */
  function Long(opts: string, longopts: seq<LongOpt>, s: string, next: Option<string>): Decoded {
    var n := NameLength(s);
    match LongMatch(longopts, s[..n])
    case Ambiguous => Decoded([Event('?' as int, None, Some(0), None)], false)
    case NotFound => Decoded([Event('?' as int, None, Some(0), None)], false)
    case Found(i) =>
      var p := longopts[i];
      var code := if p.flag.Some? then 0 else p.val;
      if n < |s| then
        if p.hasArg != 0 then Decoded([Event(code, Some(s[n + 1..]), None, Some(i))], false)
        else Decoded([Event('?' as int, None, Some(p.val), None)], false)
      else if p.hasArg == 1 then
        if next.Some? then Decoded([Event(code, next, None, Some(i))], true)
        else Decoded([Event(MissingCode(opts), None, Some(p.val), None)], false)
      else Decoded([Event(code, None, None, Some(i))], false)
  }

  // ----- whole argument lists -----

  /** Not of option syntax: no leading dash, or nothing after it. */
  predicate NonOption(e: string) {
    |e| < 2 || e[0] != '-'
  }

  predicate IsLong(cfg: Config, e: string) {
    cfg.longopts.Some? && |e| >= 2 && e[1] == '-'
  }

  function Element(cfg: Config, e: string, next: Option<string>): Decoded
    requires !NonOption(e)
  {
    if IsLong(cfg, e) then Long(cfg.opts, cfg.longopts.value, e[2..], next) else Cluster(cfg.opts, e[1..], next)
  }

  /**
   The result of a scan: the events in order, the elements taken as options, option arguments or the
   `--` that ends them, and the operands left for the caller, both in their original order.
   */
  datatype Scan = Scan(events: seq<Event>, options: seq<string>, operands: seq<string>)

  function Prepend(events: seq<Event>, options: seq<string>, operands: seq<string>, s: Scan): Scan {
    Scan(events + s.events, options + s.options, operands + s.operands)
  }

  function NextOf(args: seq<string>): Option<string> {
    if |args| >= 2 then Some(args[1]) else None
  }

  function Taken(d: Decoded): nat {
    if d.usesNext then 2 else 1
  }

  lemma {:induction false} ClusterUsesNext(opts: string, s: string, next: Option<string>)
    ensures Cluster(opts, s, next).usesNext ==> next.Some?
  {
    if s != "" {
      ClusterUsesNext(opts, s[1..], next);
    }
  }

  lemma ElementFits(cfg: Config, args: seq<string>)
    requires args != [] && !NonOption(args[0])
    ensures Taken(Element(cfg, args[0], NextOf(args))) <= |args|
  {
    if !IsLong(cfg, args[0]) {
      ClusterUsesNext(cfg.opts, args[0][1..], NextOf(args));
    }
  }

  /** The reference scan: one pass over the arguments, moving nothing. */
  function ScanArgs(cfg: Config, args: seq<string>): Scan
    decreases |args|
  {
    if args == [] then Scan([], [], [])
    else if args[0] == "--" then Scan([], args[..1], args[1..])
    else if NonOption(args[0]) then
      match cfg.ordering
      case RequireOrder => Scan([], [], args)
      case Permute => Prepend([], [], args[..1], ScanArgs(cfg, args[1..]))
      case ReturnInOrder => Prepend([Event(1, Some(args[0]), None, None)], args[..1], [], ScanArgs(cfg, args[1..]))
    else
      var d := Element(cfg, args[0], NextOf(args));
      ElementFits(cfg, args);
      Prepend(d.events, args[..Taken(d)], [], ScanArgs(cfg, args[Taken(d)..]))
  }

  /** How many elements the first one takes with it. */
  function First(cfg: Config, args: seq<string>): (k: nat)
    requires args != []
    ensures 0 < k <= |args|
  {
    if NonOption(args[0]) then 1
    else
      ElementFits(cfg, args);
      Taken(Element(cfg, args[0], NextOf(args)))
  }

  /** Unless permuting, the elements taken are options. */
  lemma FirstTaken(cfg: Config, args: seq<string>)
    requires cfg.ordering != Permute && args != [] && args[0] != "--"
    requires !(NonOption(args[0]) && cfg.ordering == RequireOrder)
    ensures var k, s := First(cfg, args), ScanArgs(cfg, args);
            var rest := ScanArgs(cfg, args[k..]);
            s.options == args[..k] + rest.options && s.operands == rest.operands
  {
    hide Element, NonOption;
  }

  /** Where the scan ends, the operands are all that is left. */
  lemma ScanStops(cfg: Config, args: seq<string>)
    requires args == [] || args[0] == "--" || (NonOption(args[0]) && cfg.ordering == RequireOrder)
    ensures var s := ScanArgs(cfg, args); s.options + s.operands == args
  {
    if args != [] && args[0] == "--" {
      assert args == args[..1] + args[1..];
    }
  }

  /** Unless permuting was asked for, the operands follow the options where they are. */
  lemma {:induction false} ScanInPlace(cfg: Config, args: seq<string>)
    requires cfg.ordering != Permute
    ensures var s := ScanArgs(cfg, args); s.options + s.operands == args
    decreases |args|
  {
    hide ScanArgs, First, NonOption;
    if args == [] || args[0] == "--" || (NonOption(args[0]) && cfg.ordering == RequireOrder) {
      ScanStops(cfg, args);
    } else {
      var k := First(cfg, args);
      FirstTaken(cfg, args);
      ScanInPlace(cfg, args[k..]);
      assert args == args[..k] + args[k..];
    }
  }

  /** The elements of `args` with the given mark, in order. */
  function Select(args: seq<string>, marks: seq<bool>, mark: bool): seq<string>
    requires |marks| == |args|
  {
    if args == [] then []
    else if marks[0] == mark then [args[0]] + Select(args[1..], marks[1..], mark)
    else Select(args[1..], marks[1..], mark)
  }

  lemma {:induction false} SelectAll(args: seq<string>, marks: seq<bool>, mark: bool)
    requires |marks| == |args| && forall i :: 0 <= i < |marks| ==> marks[i] == mark
    ensures Select(args, marks, mark) == args && Select(args, marks, !mark) == []
  {
    if args != [] {
      SelectAll(args[1..], marks[1..], mark);
    }
  }

  lemma {:induction false} SelectConcat(a: seq<string>, b: seq<string>, m: seq<bool>, n: seq<bool>, mark: bool)
    requires |m| == |a| && |n| == |b|
    ensures Select(a + b, m + n, mark) == Select(a, m, mark) + Select(b, n, mark)
  {
    if a == [] {
      assert a + b == b && m + n == n;
    } else {
      assert (a + b)[1..] == a[1..] + b && (m + n)[1..] == m[1..] + n;
      SelectConcat(a[1..], b, m[1..], n, mark);
    }
  }

  /** The scan is a stable partition: each argument is marked once, and both halves keep their order. */
  lemma {:induction false} ScanIsStable(cfg: Config, args: seq<string>) returns (marks: seq<bool>)
    ensures |marks| == |args|
    ensures Select(args, marks, true) == ScanArgs(cfg, args).operands
    ensures Select(args, marks, false) == ScanArgs(cfg, args).options
    decreases |args|
  {
    if args == [] {
      marks := [];
    } else if args[0] == "--" {
      var rest := seq(|args| - 1, i => true);
      SelectAll(args[1..], rest, true);
      marks := Marked(args, 1, false, rest);
      assert args[..1] + [] == args[..1];
    } else if NonOption(args[0]) && cfg.ordering == RequireOrder {
      marks := seq(|args|, i => true);
      SelectAll(args, marks, true);
    } else {
      var operand := NonOption(args[0]) && cfg.ordering == Permute;
      var k := if NonOption(args[0]) then 1 else Taken(Element(cfg, args[0], NextOf(args)));
      if !NonOption(args[0]) {
        ElementFits(cfg, args);
      }
      var rest := ScanIsStable(cfg, args[k..]);
      marks := Marked(args, k, operand, rest);
      var s := ScanArgs(cfg, args[k..]);
      assert [] + s.operands == s.operands && [] + s.options == s.options;
    }
  }

  /** Marks the first `k` elements alike in front of a marked rest. */
  lemma Marked(args: seq<string>, k: nat, mark: bool, rest: seq<bool>) returns (marks: seq<bool>)
    requires k <= |args| && |rest| == |args| - k
    ensures |marks| == |args|
    ensures Select(args, marks, mark) == args[..k] + Select(args[k..], rest, mark)
    ensures Select(args, marks, !mark) == Select(args[k..], rest, !mark)
  {
    var front := seq(k, i => mark);
    marks := front + rest;
    assert args == args[..k] + args[k..];
    SelectAll(args[..k], front, mark);
    SelectConcat(args[..k], args[k..], front, rest, mark);
    SelectConcat(args[..k], args[k..], front, rest, !mark);
    assert [] + Select(args[k..], rest, !mark) == Select(args[k..], rest, !mark);
  }
}
