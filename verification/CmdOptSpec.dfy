/** What tools/cmdopt.cc computes, as a parser that reads the arguments once, left to right. */
module CmdOptSpec {
  import opened CStrings

  datatype LongOption = LongOption(name: CString, hasArg: int, flag: Option<nat>, val: int)

  /** The option settings; a null `longopts` is `None`. */
  datatype Config = Config(optstring: CString, longopts: Option<seq<LongOption>>)

  /** The outputs of one call that delivered an option. */
  datatype Event = Event(code: int, optopt: int, optarg: CharPtr, optlong: CharPtr, longindex: int)

  /** `words[k]` is the argument that held the option of `events[k]`. */
  datatype Parse = Parse(events: seq<Event>, words: seq<nat>, options: seq<CharPtr>, operands: seq<CharPtr>)

  const NOTHING := Parse([], [], [], [])

  // ----- Short options

  datatype ShortKind = Undefined | NoArgument | Required | Optional

  /** What the option string says of `c`; a ':' in the option string defines an option like any other character. */
  function KindOf(optstring: CString, c: Char): ShortKind {
    if optstring != [] && optstring[0] != c then KindOf(optstring[1..], c)
    else KindAt(optstring, 0)
  }

  /** What the colons behind place `p` of the option string say. */
  function KindAt(optstring: CString, p: nat): ShortKind
    requires p <= |optstring|
  {
    if p == |optstring| then Undefined
    else if CharAt(optstring, p + 1) != ':' then NoArgument
    else if CharAt(optstring, p + 2) != ':' then Required
    else Optional
  }

  // ----- Long options

  /** The offset of the first '=' at or after `off`, or of the terminator. */
  function NameEnd(s: CString, off: nat): (end: nat)
    requires off <= |s|
    ensures off <= end <= |s|
    ensures '=' !in s[off..end]
    ensures end < |s| ==> s[end] == '='
    decreases |s| - off
  {
    if off == |s| || s[off] == '=' then off else NameEnd(s, off + 1)
  }

  /** Entry `k` is selected by the text `name`. */
  predicate Selects(table: seq<LongOption>, name: CString, k: nat)
    requires k < |table|
  {
    name != [] && name <= table[k].name
  }

  /** The least entry selected by `name`, or -1. */
  function LongIndex(table: seq<LongOption>, name: CString): (k: int)
    ensures -1 <= k < |table|
    ensures k >= 0 ==> Selects(table, name, k) && forall j :: 0 <= j < k ==> !Selects(table, name, j)
    ensures k == -1 ==> forall j :: 0 <= j < |table| ==> !Selects(table, name, j)
  {
    LongIndexFrom(table, name, 0)
  }

  function LongIndexFrom(table: seq<LongOption>, name: CString, from: nat): (k: int)
    requires from <= |table|
    ensures k == -1 || from <= k < |table|
    ensures k >= 0 ==> Selects(table, name, k) && forall j :: from <= j < k ==> !Selects(table, name, j)
    ensures k == -1 ==> forall j :: from <= j < |table| ==> !Selects(table, name, j)
    decreases |table| - from
  {
    if from == |table| then -1
    else if Selects(table, name, from) then from
    else LongIndexFrom(table, name, from + 1)
  }

  // ----- Whole command lines

  predicate IsOperand(s: CString) {
    s == [] || s[0] != '-' || s == "-"
  }

  predicate IsLong(s: CString) {
    |s| > 2 && s[0] == '-' && s[1] == '-'
  }

  /** Reads the arguments from `i` on, at the start of argument `i`. */
  function ParseArgs(cfg: Config, args: seq<CString>, i: nat): Parse
    requires i <= |args|
    decreases |args| - i, if i < |args| then |args[i]| + 1 else 0
  {
    if i == |args| then NOTHING
    else if IsOperand(args[i]) then Operand(i, ParseArgs(cfg, args, i + 1))
    else if IsLong(args[i]) then ParseLong(cfg, args, i)
    else ParseCluster(cfg, args, i, 1)
  }

  /** Reads the rest of the short options in argument `i`, from offset `off`. */
  function ParseCluster(cfg: Config, args: seq<CString>, i: nat, off: nat): Parse
    requires i < |args| && off <= |args[i]|
    decreases |args| - i, |args[i]| - off
  {
    if off == |args[i]| then Words(i, 1, ParseArgs(cfg, args, i + 1))
    else
      var c := args[i][off];
      match KindOf(cfg.optstring, c)
      case Undefined =>
        if c == '-' then Words(i, 1, Operands(i + 1, |args|))
        else Deliver(ShortEvent('?', c, Null), i, ParseCluster(cfg, args, i, off + 1))
      case NoArgument =>
        Deliver(ShortEvent(c, c, Null), i, ParseCluster(cfg, args, i, off + 1))
      case _ =>
        if off + 1 < |args[i]| then
          Deliver(ShortEvent(c, c, At(i, off + 1)), i, Words(i, 1, ParseArgs(cfg, args, i + 1)))
        else if i + 1 < |args| then
          Deliver(ShortEvent(c, c, At(i + 1, 0)), i, Words(i, 2, ParseArgs(cfg, args, i + 2)))
        else
          var code := if KindOf(cfg.optstring, c).Optional? then c else ':';
          Deliver(ShortEvent(code, c, Null), i, Words(i, 1, NOTHING))
  }

  /** Reads the long option in argument `i`. */
  function ParseLong(cfg: Config, args: seq<CString>, i: nat): Parse
    requires i < |args| && IsLong(args[i])
    decreases |args| - i, 0
  {
    var (event, used) := ReadLong(cfg, args, i);
    Deliver(event, i, Words(i, used, ParseArgs(cfg, args, i + used)))
  }

  /** The event of the long option in argument `i`, and how many arguments it uses up. */
  function ReadLong(cfg: Config, args: seq<CString>, i: nat): (r: (Event, nat))
    requires i < |args| && IsLong(args[i])
    ensures 1 <= r.1 <= |args| - i
  {
    var end := NameEnd(args[i], 2);
    var k := if cfg.longopts == None then -1 else LongIndex(cfg.longopts.value, args[i][2..end]);
    if k == -1 then (LongEvent('?' as int, Null, i, -1), 1)
    else
      var option := cfg.longopts.value[k];
      var attached := if end < |args[i]| then At(i, end + 1) else Null;
      if option.hasArg == 0 then
        (LongEvent(if attached == Null then LongCode(option) else '?' as int, attached, i, k), 1)
      else if attached != Null then (LongEvent(LongCode(option), attached, i, k), 1)
      else if i + 1 < |args| then (LongEvent(LongCode(option), At(i + 1, 0), i, k), 2)
      else (LongEvent(':' as int, Null, i, k), 1)
  }

  /** An option with a flag stores its value there and answers 0. */
  function LongCode(option: LongOption): int {
    if option.flag == None then option.val else 0
  }

  function ShortEvent(code: Char, c: Char, optarg: CharPtr): Event {
    Event(CharValue(code), CharValue(c), optarg, Null, 0)
  }

  function LongEvent(code: int, optarg: CharPtr, i: nat, k: int): Event {
    Event(code, 0, optarg, At(i, 0), k)
  }

  function Deliver(event: Event, word: nat, p: Parse): Parse {
    p.(events := [event] + p.events, words := [word] + p.words)
  }

  /** The arguments `from <= j < to`, as pointers. */
  function Pointers(from: nat, to: nat): (ps: seq<CharPtr>)
    requires from <= to
  {
    seq(to - from, k requires 0 <= k => At(from + k, 0))
  }

  function Words(i: nat, used: nat, p: Parse): Parse {
    p.(options := Pointers(i, i + used) + p.options)
  }

  function Operand(i: nat, p: Parse): Parse {
    p.(operands := [At(i, 0)] + p.operands)
  }

  function Operands(from: nat, to: nat): Parse
    requires from <= to
  {
    NOTHING.(operands := Pointers(from, to))
  }

  /** The assignments that a run makes through `flag` pointers, made to `flags` in order. */
  function Stored(cfg: Config, events: seq<Event>, flags: map<nat, int>): map<nat, int>
  {
    if events == [] then flags
    else Stored(cfg, events[1..], StoredBy(cfg, events[0], flags))
  }

  function StoredBy(cfg: Config, event: Event, flags: map<nat, int>): map<nat, int> {
    if event.optlong != Null && cfg.longopts.Some? && 0 <= event.longindex < |cfg.longopts.value| &&
       cfg.longopts.value[event.longindex].flag.Some? && event.code == 0
    then flags[cfg.longopts.value[event.longindex].flag.value := cfg.longopts.value[event.longindex].val]
    else flags
  }
}
