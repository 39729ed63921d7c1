/** What holds of every whole run: who ends up where, where option arguments come from, and how much is delivered. */
module CmdOptRuns {
  import opened CStrings
  import opened CmdOptSpec
  import opened CmdOptScanner
  import opened CmdOptMeaning

  // ----- Options and operands

  ghost predicate Increasing(ps: seq<CharPtr>, from: nat, to: nat) {
    && (forall k :: 0 <= k < |ps| ==> ps[k] != Null && from <= ps[k].arg < to && ps[k].off == 0)
    && (forall j, k :: 0 <= j < k < |ps| ==> ps[j].arg < ps[k].arg)
  }

  /** The arguments `from <= j < to` are divided over `options` and `operands`, each in the original order. */
  ghost predicate Divides(from: nat, to: nat, options: seq<CharPtr>, operands: seq<CharPtr>) {
    && Increasing(options, from, to) && Increasing(operands, from, to)
    && forall j :: from <= j < to ==> (At(j, 0) in options <==> At(j, 0) !in operands)
  }

  /** The operands are divided off stably: nothing is lost, doubled or reordered. */
  lemma {:induction false} StablePartition(cfg: Config, args: seq<CString>, i: nat)
    requires i <= |args|
    ensures Divides(i, |args|, ParseArgs(cfg, args, i).options, ParseArgs(cfg, args, i).operands)
    decreases |args| - i, if i < |args| then |args[i]| + 1 else 0
  {
    if i == |args| {
    } else if IsOperand(args[i]) {
      StablePartition(cfg, args, i + 1);
      var p := ParseArgs(cfg, args, i + 1);
      DividesOperand(i, |args|, p.options, p.operands);
    } else if IsLong(args[i]) {
      var used := ReadLong(cfg, args, i).1;
      StablePartition(cfg, args, i + used);
      var p := ParseArgs(cfg, args, i + used);
      DividesOptions(i, i + used, |args|, p.options, p.operands);
    } else {
      ClusterPartition(cfg, args, i, 1);
    }
  }

  lemma {:induction false} ClusterPartition(cfg: Config, args: seq<CString>, i: nat, off: nat)
    requires i < |args| && off <= |args[i]|
    ensures Divides(i, |args|, ParseCluster(cfg, args, i, off).options, ParseCluster(cfg, args, i, off).operands)
    decreases |args| - i, |args[i]| - off
  {
    if off == |args[i]| {
      StablePartition(cfg, args, i + 1);
      var p := ParseArgs(cfg, args, i + 1);
      DividesOptions(i, i + 1, |args|, p.options, p.operands);
    } else {
      match KindOf(cfg.optstring, args[i][off])
      case Undefined =>
        if args[i][off] != '-' {
          ClusterPartition(cfg, args, i, off + 1);
        } else {
          AllOperands(i + 1, |args|);
          DividesOptions(i, i + 1, |args|, [], Pointers(i + 1, |args|));
        }
      case NoArgument =>
        ClusterPartition(cfg, args, i, off + 1);
      case _ =>
        var used := if off + 1 == |args[i]| && i + 1 < |args| then 2 else 1;
        StablePartition(cfg, args, i + used);
        var p := ParseArgs(cfg, args, i + used);
        DividesOptions(i, i + used, |args|, p.options, p.operands);
    }
  }

  lemma PointersHold(from: nat, to: nat)
    requires from <= to
    ensures forall j :: from <= j < to ==> At(j, 0) in Pointers(from, to)
  {
    forall j | from <= j < to
      ensures At(j, 0) in Pointers(from, to)
    {
      assert Pointers(from, to)[j - from] == At(j, 0);
    }
  }

  lemma AllOperands(from: nat, to: nat)
    requires from <= to
    ensures Divides(from, to, [], Pointers(from, to))
  {
    PointersHold(from, to);
  }

  /** Adding the arguments before `mid` to the options keeps a division. */
  lemma DividesOptions(from: nat, mid: nat, to: nat, options: seq<CharPtr>, operands: seq<CharPtr>)
    requires from <= mid <= to && Divides(mid, to, options, operands)
    ensures Divides(from, to, Pointers(from, mid) + options, operands)
  {
    var ps := Pointers(from, mid);
    PointersHold(from, mid);
    assert forall p :: p in ps + options <==> p in ps || p in options;
  }

  /** Adding the first argument to the operands keeps a division. */
  lemma DividesOperand(from: nat, to: nat, options: seq<CharPtr>, operands: seq<CharPtr>)
    requires from < to && Divides(from + 1, to, options, operands)
    ensures Divides(from, to, options, [At(from, 0)] + operands)
  {
  }

  // ----- Where option arguments come from

  /** The argument of option `k` is part of the element that held it, or all of the next element. */
  ghost predicate FromOwnOrNext(args: seq<CString>, p: Parse, k: nat)
    requires k < |p.events| == |p.words|
  {
    var w, optarg := p.words[k], p.events[k].optarg;
    || optarg == Null
    || (optarg.arg == w < |args| && 1 <= optarg.off <= |args[w]|)
    || (optarg == At(w + 1, 0) && At(w + 1, 0) in p.options && w + 1 !in p.words)
  }

  ghost predicate Provenance(args: seq<CString>, from: nat, p: Parse) {
    && |p.words| == |p.events|
    && forall k :: 0 <= k < |p.words| ==>
         && from <= p.words[k] && At(p.words[k], 0) in p.options
         && p.events[k].optlong in {Null, At(p.words[k], 0)}
         && FromOwnOrNext(args, p, k)
  }

  /** An argument taken whole by an option is neither read for options nor returned as an operand. */
  lemma {:induction false} ArgumentProvenance(cfg: Config, args: seq<CString>, i: nat)
    requires i <= |args|
    ensures Provenance(args, i, ParseArgs(cfg, args, i))
    decreases |args| - i, if i < |args| then |args[i]| + 1 else 0
  {
    if i == |args| {
    } else if IsOperand(args[i]) {
      ArgumentProvenance(cfg, args, i + 1);
      ProvenanceUnder(args, i, i, ParseArgs(cfg, args, i + 1), ParseArgs(cfg, args, i));
    } else if IsLong(args[i]) {
      var (event, used) := ReadLong(cfg, args, i);
      ArgumentProvenance(cfg, args, i + used);
      ProvenanceFront(args, i, used, event, ParseArgs(cfg, args, i + used));
    } else {
      ClusterProvenance(cfg, args, i, 1);
    }
  }

  lemma {:induction false} ClusterProvenance(cfg: Config, args: seq<CString>, i: nat, off: nat)
    requires i < |args| && off <= |args[i]|
    ensures Provenance(args, i, ParseCluster(cfg, args, i, off))
    ensures At(i, 0) in ParseCluster(cfg, args, i, off).options
    decreases |args| - i, |args[i]| - off
  {
    if off == |args[i]| {
      ArgumentProvenance(cfg, args, i + 1);
      ProvenanceUnder(args, i, i, ParseArgs(cfg, args, i + 1), ParseCluster(cfg, args, i, off));
      assert Pointers(i, i + 1)[0] == At(i, 0);
    } else {
      match KindOf(cfg.optstring, args[i][off])
      case Undefined =>
        if args[i][off] != '-' {
          ClusterProvenance(cfg, args, i, off + 1);
          ProvenanceMore(args, i, ParseCluster(cfg, args, i, off).events[0], ParseCluster(cfg, args, i, off + 1));
        } else {
          assert Pointers(i, i + 1)[0] == At(i, 0);
        }
      case NoArgument =>
        ClusterProvenance(cfg, args, i, off + 1);
        ProvenanceMore(args, i, ParseCluster(cfg, args, i, off).events[0], ParseCluster(cfg, args, i, off + 1));
      case _ =>
        var used := if off + 1 == |args[i]| && i + 1 < |args| then 2 else 1;
        ArgumentProvenance(cfg, args, i + used);
        ProvenanceFront(args, i, used, ParseCluster(cfg, args, i, off).events[0], ParseArgs(cfg, args, i + used));
        assert Pointers(i, i + used)[0] == At(i, 0);
    }
  }

  lemma ProvenanceUnder(args: seq<CString>, from: nat, i: nat, p: Parse, q: Parse)
    requires from <= i && Provenance(args, i + 1, p)
    requires p.events == q.events && p.words == q.words && forall o :: o in p.options ==> o in q.options
    ensures Provenance(args, from, q)
  {
  }

  lemma FromLater(args: seq<CString>, i: nat, used: nat, event: Event, p: Parse, k: nat)
    requires 1 <= used && Provenance(args, i + used, p) && 0 < k <= |p.words|
    ensures var q := Deliver(event, i, Words(i, used, p));
            At(q.words[k], 0) in q.options && FromOwnOrNext(args, q, k)
  {
    var q := Deliver(event, i, Words(i, used, p));
    assert q.words[k] == p.words[k - 1] && q.events[k] == p.events[k - 1];
    assert FromOwnOrNext(args, p, k - 1);
  }

  lemma ProvenanceFront(args: seq<CString>, i: nat, used: nat, event: Event, p: Parse)
    requires i < |args| && 1 <= used && Provenance(args, i + used, p)
    requires event.optlong in {Null, At(i, 0)}
    requires || event.optarg == Null
             || (event.optarg.arg == i && 1 <= event.optarg.off <= |args[i]|)
             || (event.optarg == At(i + 1, 0) && used == 2)
    ensures Provenance(args, i, Deliver(event, i, Words(i, used, p)))
  {
    var q := Deliver(event, i, Words(i, used, p));
    PointersHold(i, i + used);
    assert forall k :: 0 < k < |q.words| ==> q.words[k] == p.words[k - 1] && q.events[k] == p.events[k - 1];
    forall k | 0 <= k < |q.words|
      ensures At(q.words[k], 0) in q.options && FromOwnOrNext(args, q, k)
    {
      if k == 0 {
        assert At(i, 0) in q.options;
      } else {
        FromLater(args, i, used, event, p, k);
      }
    }
  }

  lemma ProvenanceMore(args: seq<CString>, i: nat, event: Event, p: Parse)
    requires Provenance(args, i, p) && At(i, 0) in p.options
    requires event.optarg == Null && event.optlong == Null
    ensures Provenance(args, i, Deliver(event, i, p))
  {
  }

  /** An argument that an option took whole holds no option and is no operand. */
  lemma TakenWholeIsNothingElse(cfg: Config, args: seq<CString>, i: nat, k: nat)
    requires i <= |args| && k < |ParseArgs(cfg, args, i).events|
    ensures var p := ParseArgs(cfg, args, i);
            var optarg := p.events[k].optarg;
            optarg.At? && optarg.off == 0 ==> optarg in p.options && optarg !in p.operands && optarg.arg !in p.words
  {
    var p := ParseArgs(cfg, args, i);
    ArgumentProvenance(cfg, args, i);
    StablePartition(cfg, args, i);
    assert FromOwnOrNext(args, p, k);
  }

  // ----- How many options there can be

  /** The characters behind the first one of the arguments from `i` on. */
  ghost function Letters(args: seq<CString>, i: nat): nat
    requires i <= |args|
    decreases |args| - i
  {
    if i == |args| then 0
    else (if args[i] == [] then 0 else |args[i]| - 1) + Letters(args, i + 1)
  }

  lemma {:induction false} EventBound(cfg: Config, args: seq<CString>, i: nat)
    requires i <= |args|
    ensures |ParseArgs(cfg, args, i).events| <= Letters(args, i)
    decreases |args| - i, if i < |args| then |args[i]| + 1 else 0
  {
    if i == |args| {
    } else if IsOperand(args[i]) {
      EventBound(cfg, args, i + 1);
    } else if IsLong(args[i]) {
      var used := ReadLong(cfg, args, i).1;
      EventBound(cfg, args, i + used);
    } else {
      ClusterBound(cfg, args, i, 1);
    }
  }

  lemma {:induction false} ClusterBound(cfg: Config, args: seq<CString>, i: nat, off: nat)
    requires i < |args| && off <= |args[i]|
    ensures |ParseCluster(cfg, args, i, off).events| <= |args[i]| - off + Letters(args, i + 1)
    decreases |args| - i, |args[i]| - off
  {
    if off == |args[i]| {
      EventBound(cfg, args, i + 1);
    } else {
      match KindOf(cfg.optstring, args[i][off])
      case Undefined =>
        if args[i][off] != '-' {
          ClusterBound(cfg, args, i, off + 1);
        }
      case NoArgument =>
        ClusterBound(cfg, args, i, off + 1);
      case _ =>
        EventBound(cfg, args, i + if off + 1 == |args[i]| && i + 1 < |args| then 2 else 1);
    }
  }

  // ----- Every state of the scanner

  /**
   * In every reachable state the unread arguments are the original ones from some place on, in place; what is in front
   * and behind begins the options and the operands of the whole run; and the cursor points into the first unread one.
   */
  lemma ReachableState(h: CmdOpt)
    requires h.Valid()
    ensures 1 <= h.optind <= h.optnum <= |h.args| && h.argv.Length == |h.args| + 1
    ensures h.argv[0] == At(0, 0) && h.argv[|h.args|] == Null
    ensures forall k :: h.optind <= k < h.optnum ==> h.argv[k] == At(k + |h.args| - h.optnum, 0)
    ensures h.argv[1..h.optind] <= ParseArgs(h.cfg, h.args, 1).options
    ensures h.argv[h.optnum..|h.args|] <= ParseArgs(h.cfg, h.args, 1).operands
    ensures h.optind < h.optnum && h.nextchar != Null ==>
              h.nextchar.arg == h.argv[h.optind].arg && 1 <= h.nextchar.off <= |h.args[h.nextchar.arg]|
  {
    var unread := Pointers(h.Next(), |h.args|);
    assert forall k :: 0 <= k < h.argv.Length ==> h.argv[k] == Layout(h.front, unread, h.back)[k];
    assert h.argv[1..h.optind] == h.front;
    assert h.argv[h.optnum..|h.args|] == h.back;
  }

  // ----- Whole runs of the scanner

  /** No option answers -1, the value by which the tools end their loops. */
  predicate NeverDone(cfg: Config) {
    && (forall c :: c in cfg.optstring ==> CharValue(c) != -1)
    && (cfg.longopts.Some? ==> forall o :: o in cfg.longopts.value ==> LongCode(o) != -1)
  }

  lemma {:induction false} CodesNotDone(cfg: Config, args: seq<CString>, i: nat)
    requires i <= |args| && NeverDone(cfg)
    ensures forall e :: e in ParseArgs(cfg, args, i).events ==> e.code != -1
    decreases |args| - i, if i < |args| then |args[i]| + 1 else 0
  {
    if i == |args| {
    } else if IsOperand(args[i]) {
      CodesNotDone(cfg, args, i + 1);
    } else if IsLong(args[i]) {
      var (event, used) := ReadLong(cfg, args, i);
      CodesNotDone(cfg, args, i + used);
      assert event.code != -1 by {
        if event.longindex >= 0 {
          assert cfg.longopts.value[event.longindex] in cfg.longopts.value;
        }
      }
    } else {
      ClusterCodesNotDone(cfg, args, i, 1);
    }
  }

  lemma {:induction false} ClusterCodesNotDone(cfg: Config, args: seq<CString>, i: nat, off: nat)
    requires i < |args| && off <= |args[i]| && NeverDone(cfg)
    ensures forall e :: e in ParseCluster(cfg, args, i, off).events ==> e.code != -1
    decreases |args| - i, |args[i]| - off
  {
    if off == |args[i]| {
      CodesNotDone(cfg, args, i + 1);
    } else {
      var c := args[i][off];
      DefinedInOptstring(cfg.optstring, c);
      match KindOf(cfg.optstring, c)
      case Undefined =>
        if c != '-' {
          ClusterCodesNotDone(cfg, args, i, off + 1);
        }
      case NoArgument =>
        ClusterCodesNotDone(cfg, args, i, off + 1);
      case _ =>
        CodesNotDone(cfg, args, i + if off + 1 == |args[i]| && i + 1 < |args| then 2 else 1);
    }
  }

  lemma {:induction false} DefinedInOptstring(optstring: CString, c: Char)
    ensures KindOf(optstring, c) == Undefined <==> c !in optstring
  {
    if optstring == [] || optstring[0] == c {
    } else {
      DefinedInOptstring(optstring[1..], c);
    }
  }

  /** One call of the scanner; none when it answers -1. */
  method Next(h: CmdOpt) returns (e: Option<Event>)
    requires h.Valid() && NeverDone(h.cfg)
    modifies h, h.argv
    ensures h.Valid()
    ensures e == None ==> old(h.Remaining()).events == [] && h.optind == h.optnum && h.flags == old(h.flags)
    ensures e != None ==> old(h.Remaining()).events == [e.value] + h.Remaining().events &&
                          h.flags == StoredBy(h.cfg, e.value, old(h.flags)) &&
                          h.Before(old(h.optnum - h.optind), old(h.Unread()))
  {
    RemainingNotDone(h);
    var value, warning := h.Get();
    e := if value == -1 then None else Some(Event(value, h.optopt, h.optarg, h.optlong, h.longindex));
  }

  /** The loop of the tools: takes options until the answer is -1. */
  method Drain(h: CmdOpt) returns (events: seq<Event>)
    requires h.Valid() && NeverDone(h.cfg)
    modifies h, h.argv
    ensures h.Valid() && h.optind == h.optnum
    ensures events == old(h.Remaining()).events
    ensures h.flags == Stored(h.cfg, events, old(h.flags))
  {
    events := [];
    ghost var all := h.Remaining().events;
    while true
      invariant h.Valid() && events + h.Remaining().events == all
      invariant Stored(h.cfg, events, old(h.flags)) == h.flags
      decreases h.optnum - h.optind, h.Unread()
    {
      var e := Next(h);
      if e == None {
        break;
      }
      Shifted(events, e.value, h.Remaining().events);
      StoredAppend(h.cfg, events, e.value, old(h.flags));
      events := events + [e.value];
    }
  }

  lemma Shifted(events: seq<Event>, event: Event, rest: seq<Event>)
    ensures events + ([event] + rest) == (events + [event]) + rest
  {
  }

  lemma RemainingNotDone(h: CmdOpt)
    requires h.Valid() && NeverDone(h.cfg)
    ensures forall e :: e in h.Remaining().events ==> e.code != -1
  {
    if h.nextchar != Null && h.optind < h.optnum {
      ClusterCodesNotDone(h.cfg, h.args, h.Next(), h.nextchar.off);
    } else {
      CodesNotDone(h.cfg, h.args, h.Next());
    }
  }

  lemma {:induction false} StoredAppend(cfg: Config, events: seq<Event>, event: Event, flags: map<nat, int>)
    ensures Stored(cfg, events + [event], flags) == StoredBy(cfg, event, Stored(cfg, events, flags))
  {
    if events == [] {
      assert Stored(cfg, [event][1..], StoredBy(cfg, event, flags)) == StoredBy(cfg, event, flags);
      assert events + [event] == [event];
    } else {
      assert (events + [event])[1..] == events[1..] + [event];
      StoredAppend(cfg, events[1..], event, StoredBy(cfg, events[0], flags));
    }
  }

  /** When the arguments are read, the options stand in front and the operands behind. */
  lemma Finished(h: CmdOpt)
    requires h.Valid() && h.optind == h.optnum
    ensures var p := ParseArgs(h.cfg, h.args, 1);
            h.argv[..] == [At(0, 0)] + p.options + p.operands + [Null] && h.optind == 1 + |p.options|
  {
  }

  /**
   * Scanning a whole command line delivers exactly what the left-to-right parser says, and leaves the options and
   * their arguments in front and the operands behind.
   */
  method ScanCommandLine(args: seq<CString>, argv: array<CharPtr>, optstring: Option<CString>,
                         longopts: Option<seq<LongOption>>, flags: map<nat, int>)
    returns (h: CmdOpt, events: seq<Event>)
    requires |args| >= 1 && argv[..] == Pointers(0, |args|) + [Null]
    requires NeverDone(Config(if optstring == None then "" else optstring.value, longopts))
    modifies argv
    ensures h.cfg == Config(if optstring == None then "" else optstring.value, longopts)
    ensures var p := ParseArgs(h.cfg, args, 1);
            && events == p.events
            && argv[..] == [At(0, 0)] + p.options + p.operands + [Null]
            && h.optind == h.optnum == 1 + |p.options|
            && h.flags == Stored(h.cfg, events, flags)
            && Says(args, p, Mean(h.cfg, args[1..]))
  {
    h := new CmdOpt(args, argv, optstring, longopts, flags);
    events := Drain(h);
    Finished(h);
    ParseMeans(h.cfg, args, 1);
  }
}
