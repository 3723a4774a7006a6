/**
 What option strings and arguments mean, told in terms of the strings themselves: what a colon in
 the option string says, how an element splits into options, and how the first character of the
 option string decides what happens to operands.
 */
module GetoptLaws {
  import opened Options
  import opened GetoptSpec
  import opened Getopt

  // ----- declarations -----

  /** How many of the characters after an option character are colons; a third one means nothing. */
  function Colons(post: string): nat {
    if post == "" || post[0] != ':' then 0
    else if |post| == 1 || post[1] != ':' then 1
    else 2
  }

  /** The option string declares `c`: its first occurrence is followed by `n` colons. */
  ghost predicate Declares(opts: string, c: char, n: nat) {
    && c != ':' && c != ';'
    && exists pre: string, post: string :: opts == pre + [c] + post && c !in pre && Colons(post) == n
  }

  ghost predicate Undeclared(opts: string, c: char) {
    c == ':' || c == ';' || c !in opts
  }

  /** `c` stands for itself in an element: it takes no argument, or is not an option. */
  ghost predicate Alone(opts: string, c: char) {
    Declares(opts, c, 0) || Undeclared(opts, c)
  }

  /** Every character is declared in one way or not at all. */
  lemma DeclaredOnce(opts: string, c: char) returns (n: nat)
    ensures Undeclared(opts, c) || (n <= 2 && Declares(opts, c, n))
  {
    n := 0;
    if !Undeclared(opts, c) {
      var i := StrChr(opts, c).value;
      assert opts == opts[..i] + [c] + opts[i + 1..];
      n := Colons(opts[i + 1..]);
    }
  }

  lemma FirstOccurrence(pre: string, c: char, post: string)
    requires c !in pre
    ensures StrChr(pre + [c] + post, c) == Some(|pre|)
  {
    var s := pre + [c] + post;
    assert s[|pre|] == c && c in s;
    assert forall j :: 0 <= j < |pre| ==> s[j] == pre[j];
    assert forall j :: |pre| < j < |s| ==> s[..j][|pre|] == c;
  }

  lemma KindDeclared(opts: string, c: char, n: nat)
    requires Declares(opts, c, n)
    ensures n <= 2 && KindOf(opts, c) == if n == 0 then NoArg else if n == 1 then RequiredArg else OptionalArg
  {
    var pre: string, post: string :| opts == pre + [c] + post && c !in pre && Colons(post) == n;
    FirstOccurrence(pre, c, post);
    assert forall j :: 0 <= j < |post| ==> opts[|pre| + 1 + j] == post[j];
  }

  lemma KindUndeclared(opts: string, c: char)
    requires Undeclared(opts, c)
    ensures KindOf(opts, c) == Unknown
  {
  }

  // ----- short options -----

  /** The event of an option that takes no argument, or is none. */
  ghost function AloneEvent(opts: string, c: char): Event {
    if Undeclared(opts, c) then Event('?' as int, None, Some(c as int), None) else Event(c as int, None, None, None)
  }

  ghost function AloneEvents(opts: string, s: string): seq<Event> {
    seq(|s|, i requires 0 <= i < |s| => AloneEvent(opts, s[i]))
  }

  ghost predicate AllAlone(opts: string, s: string) {
    forall i :: 0 <= i < |s| ==> Alone(opts, s[i])
  }

  /** The scan of an element of short options: its events, and whether it takes the next element. */
  ghost predicate Yields(cfg: Config, text: string, rest: seq<string>, events: seq<Event>, takesNext: bool) {
    var k := if takesNext then 1 else 0;
    && k <= |rest|
    && ScanArgs(cfg, ["-" + text] + rest)
       == Prepend(events, ["-" + text] + rest[..k], [], ScanArgs(cfg, rest[k..]))
  }

  /** An element that begins with one dash and, where there are long options, not with two. */
  ghost predicate ShortElement(cfg: Config, text: string) {
    text != "" && text != "-" && (cfg.longopts.Some? ==> text[0] != '-')
  }

  lemma AloneStep(opts: string, c: char, text: string, next: Option<string>)
    requires Alone(opts, c)
    ensures var d := Cluster(opts, text, next);
            Cluster(opts, [c] + text, next) == Decoded([AloneEvent(opts, c)] + d.events, d.usesNext)
  {
    hide Declares, Undeclared, KindOf;
    assert ([c] + text)[0] == c && ([c] + text)[1..] == text;
    if Undeclared(opts, c) {
      KindUndeclared(opts, c);
    } else {
      KindDeclared(opts, c, 0);
    }
  }

  lemma AloneEventsStep(opts: string, s: string)
    requires s != ""
    ensures AloneEvents(opts, s) == [AloneEvent(opts, s[0])] + AloneEvents(opts, s[1..])
  {
  }

  /** Options without arguments in front of an element's text are returned one by one. */
  lemma {:induction false} AloneFirst(opts: string, s: string, tail: string, next: Option<string>)
    requires AllAlone(opts, s)
    ensures var d := Cluster(opts, tail, next);
            Cluster(opts, s + tail, next) == Decoded(AloneEvents(opts, s) + d.events, d.usesNext)
  {
    hide Cluster, Alone, AloneEvent;
    if s == "" {
      assert s + tail == tail;
    } else {
      assert s + tail == [s[0]] + (s[1..] + tail);
      AloneFirst(opts, s[1..], tail, next);
      assert Alone(opts, s[0]);
      AloneStep(opts, s[0], s[1..] + tail, next);
      AloneEventsStep(opts, s);
    }
  }

  lemma ScanShort(cfg: Config, text: string, rest: seq<string>)
    requires ShortElement(cfg, text)
    ensures var d := Cluster(cfg.opts, text, if rest == [] then None else Some(rest[0]));
            Yields(cfg, text, rest, d.events, d.usesNext)
  {
    var e, args := "-" + text, ["-" + text] + rest;
    var next := if rest == [] then None else Some(rest[0]);
    assert e[0] == '-' && e[1] == text[0] && e[1..] == text && args[0] == e && args[1..] == rest;
    assert NextOf(args) == next;
    var d := Cluster(cfg.opts, text, next);
    ClusterUsesNext(cfg.opts, text, next);
    var k := if d.usesNext then 1 else 0;
    assert args[..k + 1] == [e] + rest[..k] && args[k + 1..] == rest[k..];
    assert "--"[1..] == "-";
    assert Element(cfg, e, next) == d;
  }

  /** An element of options without arguments. */
  lemma FlagsLaw(cfg: Config, s: string, rest: seq<string>)
    requires ShortElement(cfg, s) && AllAlone(cfg.opts, s)
    ensures Yields(cfg, s, rest, AloneEvents(cfg.opts, s), false)
  {
    hide ScanArgs, AloneEvents;
    ScanShort(cfg, s, rest);
    AloneFirst(cfg.opts, s, "", if rest == [] then None else Some(rest[0]));
    assert s + "" == s;
    assert AloneEvents(cfg.opts, s) + [] == AloneEvents(cfg.opts, s);
  }

  /** An option with one or two colons takes the rest of its element as its argument, if there is any. */
  lemma AttachedLaw(cfg: Config, s: string, c: char, arg: string, rest: seq<string>)
    requires ShortElement(cfg, s + [c] + arg) && AllAlone(cfg.opts, s) && arg != ""
    requires Declares(cfg.opts, c, 1) || Declares(cfg.opts, c, 2)
    ensures Yields(cfg, s + [c] + arg, rest,
                   AloneEvents(cfg.opts, s) + [Event(c as int, Some(arg), None, None)], false)
  {
    hide ScanArgs, AloneEvents;
    TakingFirst(cfg, s, c, arg, rest);
    KindDeclared(cfg.opts, c, if Declares(cfg.opts, c, 1) then 1 else 2);
  }

  /** With two colons, it has no argument otherwise. */
  lemma OptionalLaw(cfg: Config, s: string, c: char, rest: seq<string>)
    requires ShortElement(cfg, s + [c]) && AllAlone(cfg.opts, s) && Declares(cfg.opts, c, 2)
    ensures Yields(cfg, s + [c], rest, AloneEvents(cfg.opts, s) + [Event(c as int, None, None, None)], false)
  {
    hide ScanArgs, AloneEvents;
    assert s + [c] + "" == s + [c];
    TakingFirst(cfg, s, c, "", rest);
    KindDeclared(cfg.opts, c, 2);
  }

  /** With one colon, it takes the next element; without one, the argument is reported missing. */
  lemma RequiredLaw(cfg: Config, s: string, c: char, rest: seq<string>)
    requires ShortElement(cfg, s + [c]) && AllAlone(cfg.opts, s) && Declares(cfg.opts, c, 1)
    ensures rest != [] ==>
              Yields(cfg, s + [c], rest,
                     AloneEvents(cfg.opts, s) + [Event(c as int, Some(rest[0]), None, None)], true)
    ensures rest == [] ==>
              var code := if cfg.opts[0] == ':' then ':' else '?';
              Yields(cfg, s + [c], rest,
                     AloneEvents(cfg.opts, s) + [Event(code as int, None, Some(c as int), None)], false)
  {
    hide ScanArgs, AloneEvents;
    assert s + [c] + "" == s + [c];
    TakingFirst(cfg, s, c, "", rest);
    KindDeclared(cfg.opts, c, 1);
  }

  lemma TakingFirst(cfg: Config, s: string, c: char, arg: string, rest: seq<string>)
    requires ShortElement(cfg, s + [c] + arg) && AllAlone(cfg.opts, s)
    ensures var next := if rest == [] then None else Some(rest[0]);
            var d := Cluster(cfg.opts, [c] + arg, next);
            && Yields(cfg, s + [c] + arg, rest, AloneEvents(cfg.opts, s) + d.events, d.usesNext)
            && ([c] + arg)[0] == c && ([c] + arg)[1..] == arg
  {
    hide ScanArgs, AloneEvents, Cluster;
    var next := if rest == [] then None else Some(rest[0]);
    ScanShort(cfg, s + [c] + arg, rest);
    AloneFirst(cfg.opts, s, [c] + arg, next);
    assert s + ([c] + arg) == s + [c] + arg;
  }

  /** These laws cover every element: options without arguments, then nothing or one that takes an argument. */
  lemma {:induction false} EveryElementSplits(opts: string, text: string) returns (s: string, tail: string)
    ensures text == s + tail && AllAlone(opts, s)
    ensures tail == "" || Declares(opts, tail[0], 1) || Declares(opts, tail[0], 2)
  {
    if text == "" {
      return "", "";
    }
    var n := DeclaredOnce(opts, text[0]);
    if Alone(opts, text[0]) {
      s, tail := EveryElementSplits(opts, text[1..]);
      s := [text[0]] + s;
    } else {
      s, tail := "", text;
    }
  }

  // ----- long options -----

  /** What an option found in the table makes the scan return: 0 if it sets a variable, else its value. */
  function Code(o: LongOpt): int {
    if o.flag.None? then o.val else 0
  }

  /** The scan of the element `--` + text: its event, and whether it takes the next element. */
  ghost predicate YieldsLong(cfg: Config, text: string, rest: seq<string>, event: Event, takesNext: bool) {
    var k := if takesNext then 1 else 0;
    && k <= |rest|
    && ScanArgs(cfg, ["--" + text] + rest)
       == Prepend([event], ["--" + text] + rest[..k], [], ScanArgs(cfg, rest[k..]))
  }

  lemma ScanLong(cfg: Config, text: string, rest: seq<string>)
    requires cfg.longopts.Some? && text != ""
    ensures var d := Long(cfg.opts, cfg.longopts.value, text, if rest == [] then None else Some(rest[0]));
            |d.events| == 1 && YieldsLong(cfg, text, rest, d.events[0], d.usesNext)
  {
    hide LongMatch, NameLength;
    var e, args := "--" + text, ["--" + text] + rest;
    var next := if rest == [] then None else Some(rest[0]);
    assert e[0] == '-' && e[1] == '-' && e[2..] == text && |e| > 2 && args[0] == e && args[1..] == rest;
    assert NextOf(args) == next;
    var d := Long(cfg.opts, cfg.longopts.value, text, next);
    assert Element(cfg, e, next) == d && d.events == [d.events[0]];
    var k := if d.usesNext then 1 else 0;
    assert args[..k + 1] == [e] + rest[..k] && args[k + 1..] == rest[k..];
  }

  lemma NameIs(name: string, tail: string)
    requires '=' !in name && (tail == "" || tail[0] == '=')
    ensures NameLength(name + tail) == |name| && (name + tail)[..|name|] == name
  {
    if tail == "" {
      assert name + tail == name;
    } else {
      assert name + tail == name + ['='] + tail[1..];
      FirstOccurrence(name, '=', tail[1..]);
    }
  }

  /** A name alone: the table says whether it takes the next element as its argument. */
  lemma LongLaw(cfg: Config, name: string, m: Match, rest: seq<string>)
    requires cfg.longopts.Some? && name != "" && '=' !in name && Denotes(cfg.longopts.value, name, m)
    ensures !m.Found? ==> YieldsLong(cfg, name, rest, Event('?' as int, None, Some(0), None), false)
    ensures m.Found? ==>
              && m.index < |cfg.longopts.value|
              && var o := cfg.longopts.value[m.index];
                 && (o.hasArg != 1 ==> YieldsLong(cfg, name, rest, Event(Code(o), None, None, Some(m.index)), false))
                 && (o.hasArg == 1 && rest != [] ==>
                       YieldsLong(cfg, name, rest, Event(Code(o), Some(rest[0]), None, Some(m.index)), true))
                 && (o.hasArg == 1 && rest == [] ==>
                       var code := if cfg.opts != "" && cfg.opts[0] == ':' then ':' else '?';
                       YieldsLong(cfg, name, rest, Event(code as int, None, Some(o.val), None), false))
  {
    hide ScanArgs, Denotes;
    ScanLong(cfg, name, rest);
    DenotesUnique(cfg.longopts.value, name, m, LongMatch(cfg.longopts.value, name));
    IndexInTable(cfg.longopts.value, name, m);
    NameIs(name, "");
    assert name + "" == name;
  }

  lemma IndexInTable(longopts: seq<LongOpt>, name: string, m: Match)
    requires Denotes(longopts, name, m)
    ensures m.Found? ==> m.index < |longopts|
  {
  }

  /** A name with a value: it must denote an option that takes an argument. */
  lemma LongValueLaw(cfg: Config, name: string, value: string, m: Match, rest: seq<string>)
    requires cfg.longopts.Some? && '=' !in name && Denotes(cfg.longopts.value, name, m)
    ensures var text := name + "=" + value;
            && (!m.Found? ==> YieldsLong(cfg, text, rest, Event('?' as int, None, Some(0), None), false))
            && (m.Found? ==>
                  && m.index < |cfg.longopts.value|
                  && var o := cfg.longopts.value[m.index];
                     && (o.hasArg != 0 ==>
                           YieldsLong(cfg, text, rest, Event(Code(o), Some(value), None, Some(m.index)), false))
                     && (o.hasArg == 0 ==>
                           YieldsLong(cfg, text, rest, Event('?' as int, None, Some(o.val), None), false)))
  {
    hide ScanArgs, Denotes;
    var text := name + "=" + value;
    ScanLong(cfg, text, rest);
    DenotesUnique(cfg.longopts.value, name, m, LongMatch(cfg.longopts.value, name));
    IndexInTable(cfg.longopts.value, name, m);
    assert text == name + ("=" + value);
    NameIs(name, "=" + value);
    assert text[|name| + 1..] == value;
  }

  // ----- operands and the terminator -----

  /** The configuration of a scan, as the option string and the environment decide it. */
  function ConfigFor(optstring: string, longopts: Option<seq<LongOpt>>, posixlyCorrect: bool): Config {
    ConfigOf(optstring, longopts, OrderingOf(optstring, posixlyCorrect))
  }

  /** A leading dash or plus is not part of the options declared. */
  lemma OptionsLaw(opts: string, longopts: Option<seq<LongOpt>>, posixlyCorrect: bool)
    ensures ConfigFor("-" + opts, longopts, posixlyCorrect).opts == opts
    ensures ConfigFor("+" + opts, longopts, posixlyCorrect).opts == opts
    ensures opts == "" || (opts[0] != '-' && opts[0] != '+') ==>
              ConfigFor(opts, longopts, posixlyCorrect).opts == opts
    ensures ConfigFor(opts, longopts, posixlyCorrect).longopts == longopts
  {
    assert ("-" + opts)[1..] == opts && ("+" + opts)[1..] == opts;
  }

  /**
   An operand: after a leading dash it is returned as an event of code 1; after a leading plus, or if
   POSIXLY_CORRECT is set, it ends the scan; otherwise it is moved behind the options.
   */
  lemma OperandLaw(optstring: string, longopts: Option<seq<LongOpt>>, posixlyCorrect: bool, x: string,
                   rest: seq<string>)
    requires x == "" || x == "-" || x[0] != '-'
    ensures var cfg := ConfigFor(optstring, longopts, posixlyCorrect);
            var s, after := ScanArgs(cfg, [x] + rest), ScanArgs(cfg, rest);
            var first := if optstring == "" then ' ' else optstring[0];
            if first == '-' then s == Prepend([Event(1, Some(x), None, None)], [x], [], after)
            else if first == '+' || posixlyCorrect then s == Scan([], [], [x] + rest)
            else s == Prepend([], [], [x], after)
  {
    var args := [x] + rest;
    assert args[0] == x && args[..1] == [x] && args[1..] == rest && x != "--";
  }

  /** Two dashes end the options. */
  lemma TerminatorLaw(cfg: Config, rest: seq<string>)
    ensures ScanArgs(cfg, ["--"] + rest) == Scan([], ["--"], rest) && ScanArgs(cfg, []) == Scan([], [], [])
  {
    var args := ["--"] + rest;
    assert args[0] == "--" && args[..1] == ["--"] && args[1..] == rest;
  }

  /** Together the laws cover every argument list. */
  lemma EveryArgumentCovered(cfg: Config, x: string)
    ensures || x == "" || x == "-" || x[0] != '-' || x == "--"
            || (cfg.longopts.Some? && exists text: string :: text != "" && x == "--" + text)
            || exists text: string :: ShortElement(cfg, text) && x == "-" + text
  {
    if |x| >= 2 && x[0] == '-' && x != "--" {
      if cfg.longopts.Some? && x[1] == '-' {
        assert x == "--" + x[2..] && x[2..] != "";
      } else {
        assert x == "-" + x[1..] && x[1..][0] == x[1];
        assert ShortElement(cfg, x[1..]);
      }
    }
  }
}
