/**
 * What a command line says: the labels with the text of their arguments, and the operands; and when two spellings say
 * the same.
 */
module CmdOptMeaning {
  import opened CStrings
  import opened CmdOptSpec

  datatype Item = Item(code: int, arg: Option<CString>)

  /** How the word after a command line would be read: afresh, as the argument of option `code`, or as an operand. */
  datatype Ending = Open | Pending(code: int) | Ended

  datatype Meaning = Meaning(items: seq<Item>, operands: seq<CString>, ending: Ending)

  const SILENCE := Meaning([], [], Open)

  /** What the arguments say, read at the start of the first one. */
  function Mean(cfg: Config, args: seq<CString>): Meaning
    decreases |args|, if args == [] then 0 else |args[0]| + 1
  {
    if args == [] then SILENCE
    else if IsOperand(args[0]) then SayOperand(args[0], Mean(cfg, args[1..]))
    else if IsLong(args[0]) then MeanLong(cfg, args[0], args[1..])
    else MeanCluster(cfg, args[0][1..], args[1..])
  }

  /** What short options say that are followed by `rest`. */
  function MeanCluster(cfg: Config, letters: CString, rest: seq<CString>): Meaning
    decreases |rest| + 1, |letters|
  {
    if letters == [] then Mean(cfg, rest)
    else
      var c := letters[0];
      match KindOf(cfg.optstring, c)
      case Undefined =>
        if c == '-' then Meaning([], rest, Ended)
        else Say(Item('?' as int, None), MeanCluster(cfg, letters[1..], rest))
      case NoArgument =>
        Say(Item(CharValue(c), None), MeanCluster(cfg, letters[1..], rest))
      case _ =>
        if letters[1..] != [] then Say(Item(CharValue(c), Some(letters[1..])), Mean(cfg, rest))
        else if rest != [] then Say(Item(CharValue(c), Some(rest[0])), Mean(cfg, rest[1..]))
        else
          Say(Item(if KindOf(cfg.optstring, c).Optional? then CharValue(c) else ':' as int, None),
              SILENCE.(ending := Pending(CharValue(c))))
  }

  /** What a long option says that is followed by `rest`. */
  function MeanLong(cfg: Config, word: CString, rest: seq<CString>): Meaning
    requires IsLong(word)
    decreases |rest| + 1, 0
  {
    var end := NameEnd(word, 2);
    var k := if cfg.longopts == None then -1 else LongIndex(cfg.longopts.value, word[2..end]);
    var attached := if end < |word| then Some(word[end + 1..]) else None;
    if k == -1 then Say(Item('?' as int, None), Mean(cfg, rest))
    else
      var option := cfg.longopts.value[k];
      if option.hasArg == 0 then
        Say(Item(if attached == None then LongCode(option) else '?' as int, attached), Mean(cfg, rest))
      else if attached != None then Say(Item(LongCode(option), attached), Mean(cfg, rest))
      else if rest != [] then Say(Item(LongCode(option), Some(rest[0])), Mean(cfg, rest[1..]))
      else Say(Item(':' as int, None), SILENCE.(ending := Pending(LongCode(option))))
  }

  function Say(item: Item, m: Meaning): Meaning {
    m.(items := [item] + m.items)
  }

  function SayOperand(operand: CString, m: Meaning): Meaning {
    m.(operands := [operand] + m.operands)
  }

  // ----- The parser delivers what the command line says

  /** The text that a pointer points to. */
  function Text(args: seq<CString>, p: CharPtr): Option<CString> {
    if p == Null || p.arg >= |args| || p.off > |args[p.arg]| then None else Some(args[p.arg][p.off..])
  }

  function Items(args: seq<CString>, events: seq<Event>): seq<Item> {
    seq(|events|, k requires 0 <= k < |events| => Item(events[k].code, Text(args, events[k].optarg)))
  }

  function Texts(args: seq<CString>, ps: seq<CharPtr>): seq<CString> {
    seq(|ps|, k requires 0 <= k < |ps| => if Text(args, ps[k]) == None then [] else Text(args, ps[k]).value)
  }

  /** The events and operands of a parse, read as text, are those of `m`. */
  ghost predicate Says(args: seq<CString>, p: Parse, m: Meaning) {
    Items(args, p.events) == m.items && Texts(args, p.operands) == m.operands
  }

  lemma {:induction false} ParseMeans(cfg: Config, args: seq<CString>, i: nat)
    requires i <= |args|
    ensures Says(args, ParseArgs(cfg, args, i), Mean(cfg, args[i..]))
    decreases |args| - i, if i < |args| then |args[i]| + 1 else 0
  {
    if i == |args| {
    } else if IsOperand(args[i]) {
      FirstMeans(cfg, args, i);
      ParseMeans(cfg, args, i + 1);
      OperandMeans(args, i, ParseArgs(cfg, args, i + 1));
    } else if IsLong(args[i]) {
      var (event, used) := ReadLong(cfg, args, i);
      var p := ParseArgs(cfg, args, i + used);
      FirstMeans(cfg, args, i);
      LongMeans(cfg, args, i);
      ParseMeans(cfg, args, i + used);
      EventMeans(args, event, p);
    } else {
      FirstMeans(cfg, args, i);
      ClusterMeans(cfg, args, i, 1);
    }
  }

  lemma FirstMeans(cfg: Config, args: seq<CString>, i: nat)
    requires i < |args|
    ensures Mean(cfg, args[i..]) ==
            if IsOperand(args[i]) then SayOperand(args[i], Mean(cfg, args[i + 1..]))
            else if IsLong(args[i]) then MeanLong(cfg, args[i], args[i + 1..])
            else MeanCluster(cfg, args[i][1..], args[i + 1..])
  {
    assert args[i..][1..] == args[i + 1..];
  }

  lemma LongMeans(cfg: Config, args: seq<CString>, i: nat)
    requires i < |args| && IsLong(args[i])
    ensures var (event, used) := ReadLong(cfg, args, i);
            var m, rest := MeanLong(cfg, args[i], args[i + 1..]), Mean(cfg, args[i + used..]);
            m.items == [Item(event.code, Text(args, event.optarg))] + rest.items && m.operands == rest.operands
  {
    if i + 1 < |args| {
      assert args[i + 1..][1..] == args[i + 2..];
    }
  }

  lemma {:induction false} ClusterMeans(cfg: Config, args: seq<CString>, i: nat, off: nat)
    requires i < |args| && off <= |args[i]|
    ensures Says(args, ParseCluster(cfg, args, i, off), MeanCluster(cfg, args[i][off..], args[i + 1..]))
    decreases |args| - i, |args[i]| - off
  {
    if off == |args[i]| {
      ParseMeans(cfg, args, i + 1);
    } else {
      var c := args[i][off];
      match KindOf(cfg.optstring, c)
      case Undefined =>
        if c == '-' {
          assert Texts(args, Pointers(i + 1, |args|)) == args[i + 1..];
        } else {
          ClusterMeans(cfg, args, i, off + 1);
          EventMeans(args, ShortEvent('?', c, Null), ParseCluster(cfg, args, i, off + 1));
        }
      case NoArgument =>
        ClusterMeans(cfg, args, i, off + 1);
        EventMeans(args, ShortEvent(c, c, Null), ParseCluster(cfg, args, i, off + 1));
      case _ =>
        var used := if off + 1 == |args[i]| && i + 1 < |args| then 2 else 1;
        ParseMeans(cfg, args, i + used);
        EventMeans(args, ParseCluster(cfg, args, i, off).events[0], ParseArgs(cfg, args, i + used));
    }
  }

  lemma EventMeans(args: seq<CString>, event: Event, p: Parse)
    ensures Items(args, [event] + p.events) == [Item(event.code, Text(args, event.optarg))] + Items(args, p.events)
  {
  }

  lemma OperandMeans(args: seq<CString>, i: nat, p: Parse)
    requires i < |args|
    ensures Texts(args, [At(i, 0)] + p.operands) == [args[i]] + Texts(args, p.operands)
  {
  }
}
