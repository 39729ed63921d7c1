/** What each kind of word says where it is read afresh, in terms of the option string and the table alone. */
module CmdOptLaws {
  import opened CStrings
  import opened CmdOptSpec
  import opened CmdOptMeaning
  import opened CmdOptSpelling
  import opened CmdOptRuns

  // ----- Option strings

  /** What stands behind the first place of an option character decides what it means. */
  lemma {:induction false} KindBehind(a: CString, c: Char, b: CString)
    requires c !in a
    ensures KindOf(a + [c] + b, c) ==
            if b == [] || b[0] != ':' then NoArgument
            else if |b| == 1 || b[1] != ':' then Required
            else Optional
  {
    var s := a + [c] + b;
    if a == [] {
      assert s[0] == c && s[1..] == b;
      assert |b| >= 1 ==> s[1] == b[0];
      assert |b| >= 2 ==> s[2] == b[1];
    } else {
      assert s[1..] == a[1..] + [c] + b && s[0] == a[0];
      KindBehind(a[1..], c, b);
    }
  }

  /** The first words say the item, and the others are read afresh. */
  ghost predicate SaysThen(cfg: Config, words: seq<CString>, item: Item, post: seq<CString>) {
    var m, rest := Mean(cfg, words + post), Mean(cfg, post);
    m.items == [item] + rest.items && m.operands == rest.operands && m.ending == rest.ending
  }

  /** Words that are read afresh add to what was said before. */
  lemma ReadAfresh(cfg: Config, pre: seq<CString>, post: seq<CString>)
    requires Mean(cfg, pre).ending.Open?
    ensures Mean(cfg, pre + post).items == Mean(cfg, pre).items + Mean(cfg, post).items
    ensures Mean(cfg, pre + post).operands == Mean(cfg, pre).operands + Mean(cfg, post).operands
  {
    Compose(cfg, pre, post);
    if post == [] {
      assert pre + post == pre;
    }
  }

  // ----- Operands

  /** The empty word, "-", and words that do not start with '-' are operands. */
  lemma OperandWord(cfg: Config, pre: seq<CString>, word: CString, post: seq<CString>)
    requires word == "" || word == "-" || word[0] != '-'
    requires Mean(cfg, pre).ending.Open?
    ensures var m, rest := Mean(cfg, pre + ([word] + post)), Mean(cfg, post);
            m.items == Mean(cfg, pre).items + rest.items &&
            m.operands == Mean(cfg, pre).operands + [word] + rest.operands
  {
    ReadAfresh(cfg, pre, [word] + post);
    assert ([word] + post)[1..] == post && IsOperand(word);
    assert Mean(cfg, [word] + post) == SayOperand(word, Mean(cfg, post));
  }

  /** "--" ends the options unless '-' is one, and all words behind it are operands. */
  lemma EndWord(cfg: Config, pre: seq<CString>, post: seq<CString>)
    requires '-' !in cfg.optstring && Mean(cfg, pre).ending.Open?
    ensures var m := Mean(cfg, pre + (["--"] + post));
            m.items == Mean(cfg, pre).items && m.operands == Mean(cfg, pre).operands + post
  {
    var dashes: CString := "--";
    ReadAfresh(cfg, pre, [dashes] + post);
    DefinedInOptstring(cfg.optstring, '-');
    assert ([dashes] + post)[1..] == post && dashes[1..] == ['-'];
  }

  // ----- Short options

  lemma OneLetter(cfg: Config, c: Char, post: seq<CString>)
    requires KindOf(cfg.optstring, c) == NoArgument || (KindOf(cfg.optstring, c) == Undefined && c != '-')
    ensures MeanCluster(cfg, [c], post) ==
            Say(Item(if KindOf(cfg.optstring, c) == NoArgument then CharValue(c) else '?' as int, None),
                Mean(cfg, post))
  {
    var letters: CString := [c];
    assert letters[1..] == [];
    assert MeanCluster(cfg, letters[1..], post) == Mean(cfg, post);
  }

  /** A character without ':' behind it in the option string is an option without an argument. */
  lemma PlainLetter(cfg: Config, a: CString, c: Char, b: CString, post: seq<CString>)
    requires cfg.optstring == a + [c] + b && c !in a && (b == [] || b[0] != ':')
    ensures SaysThen(cfg, [['-', c]], Item(CharValue(c), None), post)
  {
    var word: CString := ['-', c];
    KindBehind(a, c, b);
    assert word[1..] == [c] && ([word] + post)[1..] == post;
    OneLetter(cfg, c, post);
  }

  /** A character with ':' behind it takes the rest of its word, or else the next word. */
  lemma LetterWithArgument(cfg: Config, a: CString, c: Char, b: CString, text: CString, post: seq<CString>)
    requires cfg.optstring == a + [c] + b && c !in a && c != '-' && b != [] && b[0] == ':'
    ensures text != [] ==> SaysThen(cfg, [['-', c] + text], Item(CharValue(c), Some(text)), post)
    ensures SaysThen(cfg, [['-', c], text], Item(CharValue(c), Some(text)), post)
  {
    var word, long: CString := ['-', c], ['-', c] + text;
    KindBehind(a, c, b);
    assert word[1..] == [c] && ([word, text] + post)[1..] == [text] + post && ([text] + post)[1..] == post;
    assert [c][1..] == [];
    assert long[1..] == [c] + text && ([long] + post)[1..] == post && ([c] + text)[1..] == text;
  }

  /** Where no argument is left, one ':' makes that an error, and two allow it. */
  lemma LetterLast(cfg: Config, a: CString, c: Char, b: CString)
    requires cfg.optstring == a + [c] + b && c !in a && c != '-' && b != [] && b[0] == ':'
    ensures var m := Mean(cfg, [['-', c]]);
            m.items == [Item(if |b| >= 2 && b[1] == ':' then CharValue(c) else ':' as int, None)] && m.operands == []
  {
    var word: CString := ['-', c];
    KindBehind(a, c, b);
    assert word[1..] == [c] && [word][1..] == [] && [c][1..] == [];
  }

  /** A character that is not in the option string is an error. */
  lemma UnknownLetter(cfg: Config, c: Char, post: seq<CString>)
    requires c !in cfg.optstring && c != '-'
    ensures SaysThen(cfg, [['-', c]], Item('?' as int, None), post)
  {
    var word: CString := ['-', c];
    DefinedInOptstring(cfg.optstring, c);
    assert word[1..] == [c] && ([word] + post)[1..] == post;
    OneLetter(cfg, c, post);
  }

  // ----- Long options

  /** Entry `k` is the first one that starts with the text, which is not empty. */
  ghost predicate Chosen(table: seq<LongOption>, name: CString, k: nat) {
    k < |table| && name != [] && name <= table[k].name && forall j :: 0 <= j < k ==> !(name <= table[j].name)
  }

  lemma ChosenIsSelected(table: seq<LongOption>, name: CString)
    ensures forall k: nat :: Chosen(table, name, k) <==> LongIndex(table, name) == k
    ensures LongIndex(table, name) == -1 <==> name == [] || forall j :: 0 <= j < |table| ==> !(name <= table[j].name)
  {
    assert forall j :: 0 <= j < |table| ==> (Selects(table, name, j) <==> name != [] && name <= table[j].name);
  }

  /** What the code of an option without an error is: its value, or 0 when it has a flag. */
  function Label(option: LongOption): int {
    if option.flag.Some? then 0 else option.val
  }

  lemma LongWord(name: CString, text: CString)
    requires '=' !in name
    ensures var bare, full: CString := "--" + name, "--" + name + "=" + text;
            && NameEnd(bare, 2) == |bare| && bare[2..] == name
            && NameEnd(full, 2) == 2 + |name| && full[2..2 + |name|] == name && full[3 + |name|..] == text
  {
    var bare, full: CString := "--" + name, "--" + name + "=" + text;
    var end := 2 + |name|;
    assert bare[2..end] == name && bare[2..] == name;
    assert full == bare + (['='] + text) && full[..end] == bare && full[end..] == ['='] + text;
    assert full[2..end] == full[..end][2..end] == name;
    NameEndAt(bare, 2, end);
    NameEndAt(full, 2, end);
    assert full[end + 1..] == full[end..][1..] == text;
  }

  /** A long option without an argument; an argument that it is given with '=' is an error. */
  lemma LongPlain(cfg: Config, name: CString, k: nat, text: CString, post: seq<CString>)
    requires '=' !in name && cfg.longopts.Some? && Chosen(cfg.longopts.value, name, k)
    requires cfg.longopts.value[k].hasArg == 0
    ensures SaysThen(cfg, ["--" + name], Item(Label(cfg.longopts.value[k]), None), post)
    ensures SaysThen(cfg, ["--" + name + "=" + text], Item('?' as int, Some(text)), post)
  {
    var bare, full: CString := "--" + name, "--" + name + "=" + text;
    LongWord(name, text);
    ChosenIsSelected(cfg.longopts.value, name);
    assert ([bare] + post)[1..] == post && ([full] + post)[1..] == post && bare[2..|bare|] == name;
  }

  /** A long option with an argument takes the text behind '=', or else the next word; without one it is an error. */
  lemma LongWithArgument(cfg: Config, name: CString, k: nat, text: CString, post: seq<CString>)
    requires '=' !in name && cfg.longopts.Some? && Chosen(cfg.longopts.value, name, k)
    requires cfg.longopts.value[k].hasArg != 0
    ensures SaysThen(cfg, ["--" + name + "=" + text], Item(Label(cfg.longopts.value[k]), Some(text)), post)
    ensures SaysThen(cfg, ["--" + name, text], Item(Label(cfg.longopts.value[k]), Some(text)), post)
    ensures Mean(cfg, ["--" + name]).items == [Item(':' as int, None)] && Mean(cfg, ["--" + name]).operands == []
  {
    var bare, full: CString := "--" + name, "--" + name + "=" + text;
    LongWord(name, text);
    ChosenIsSelected(cfg.longopts.value, name);
    assert ([full] + post)[1..] == post && bare[2..|bare|] == name;
    assert ([bare, text] + post)[1..] == [text] + post && ([text] + post)[1..] == post;
    var alone: seq<CString> := [bare];
    assert alone[1..] == [];
  }

  /** A long option whose text is empty or begins no name is an error. */
  lemma LongUnknown(cfg: Config, name: CString, text: CString, post: seq<CString>)
    requires '=' !in name
    requires cfg.longopts.Some? ==>
               name == [] || forall j :: 0 <= j < |cfg.longopts.value| ==> !(name <= cfg.longopts.value[j].name)
    ensures name != [] ==> SaysThen(cfg, ["--" + name], Item('?' as int, None), post)
    ensures SaysThen(cfg, ["--" + name + "=" + text], Item('?' as int, None), post)
  {
    var bare, full: CString := "--" + name, "--" + name + "=" + text;
    LongWord(name, text);
    if cfg.longopts.Some? {
      ChosenIsSelected(cfg.longopts.value, name);
    }
    assert ([bare] + post)[1..] == post && ([full] + post)[1..] == post && bare[2..|bare|] == name;
  }

  // ----- Long options for short ones

  /** A long option with the value of a character says the same as that character, exactly at places read afresh. */
  lemma LongForShort(cfg: Config, pre: seq<CString>, name: CString, k: nat, a: CString, c: Char, b: CString,
                     text: CString, post: seq<CString>)
    requires '=' !in name && cfg.longopts.Some? && Chosen(cfg.longopts.value, name, k)
    requires cfg.longopts.value[k].flag == None && cfg.longopts.value[k].val == CharValue(c)
    requires cfg.optstring == a + [c] + b && c !in a && c != '-'
    ensures cfg.longopts.value[k].hasArg != 0 && b != [] && b[0] == ':' ==>
              (SaySame(Mean(cfg, pre + (["--" + name, text] + post)), Mean(cfg, pre + ([['-', c], text] + post)))
               <==> Mean(cfg, pre).ending.Open?)
    ensures cfg.longopts.value[k].hasArg == 0 && (b == [] || b[0] != ':') ==>
              (SaySame(Mean(cfg, pre + (["--" + name] + post)), Mean(cfg, pre + ([['-', c]] + post)))
               <==> Mean(cfg, pre).ending.Open?)
  {
    var long, short: CString := "--" + name, ['-', c];
    assert long[1] == '-' && short[1] == c;
    if cfg.longopts.value[k].hasArg != 0 && b != [] && b[0] == ':' {
      LongWithArgument(cfg, name, k, text, post);
      LetterWithArgument(cfg, a, c, b, text, post);
      Respelled(cfg, pre, [long, text], [short, text], post);
    } else if cfg.longopts.value[k].hasArg == 0 && (b == [] || b[0] != ':') {
      LongPlain(cfg, name, k, text, post);
      PlainLetter(cfg, a, c, b, post);
      Respelled(cfg, pre, [long], [short], post);
    }
  }

  // ----- The outputs of every call

  /** The outputs for a short option at some place of its word. */
  ghost predicate FromLetter(cfg: Config, args: seq<CString>, w: nat, e: Event, off: nat)
    requires w < |args|
  {
    && 1 <= off < |args[w]| && e.optopt == CharValue(args[w][off])
    && if args[w][off] !in cfg.optstring then e.code == '?' as int && e.optarg == Null && args[w][off] != '-'
       else e.code == e.optopt || (e.code == ':' as int && e.optarg == Null && off + 1 == |args[w]| && w + 1 == |args|)
  }

  ghost predicate Justified(cfg: Config, args: seq<CString>, w: nat, e: Event)
    requires w < |args|
  {
    if e.optlong == Null then
      !IsLong(args[w]) && e.longindex == 0 && exists off :: FromLetter(cfg, args, w, e, off)
    else
      IsLong(args[w]) && e.optlong == At(w, 0) && e.optopt == 0 && FromName(cfg, args, w, e)
  }

  /** The outputs for the long option in word `w`. */
  ghost predicate FromName(cfg: Config, args: seq<CString>, w: nat, e: Event)
    requires w < |args| && IsLong(args[w])
  {
    var end := NameEnd(args[w], 2);
    var name := args[w][2..end];
    if e.longindex < 0 then
      && e.longindex == -1 && e.code == '?' as int && e.optarg == Null
      && (cfg.longopts.Some? ==> forall k: nat :: !Chosen(cfg.longopts.value, name, k))
    else
      && cfg.longopts.Some? && Chosen(cfg.longopts.value, name, e.longindex)
      && var option := cfg.longopts.value[e.longindex];
         && (end < |args[w]| ==> e.optarg == At(w, end + 1))
         && (end == |args[w]| ==> e.optarg == if option.hasArg != 0 && w + 1 < |args| then At(w + 1, 0) else Null)
         && e.code ==
            if option.hasArg == 0 && end < |args[w]| then '?' as int
            else if option.hasArg != 0 && e.optarg == Null then ':' as int
            else Label(option)
  }

  ghost predicate AllJustified(cfg: Config, args: seq<CString>, p: Parse) {
    |p.words| == |p.events| &&
    forall k :: 0 <= k < |p.events| ==> p.words[k] < |args| && Justified(cfg, args, p.words[k], p.events[k])
  }

  lemma JustifiedMore(cfg: Config, args: seq<CString>, w: nat, event: Event, p: Parse)
    requires AllJustified(cfg, args, p) && w < |args| && Justified(cfg, args, w, event)
    ensures AllJustified(cfg, args, Deliver(event, w, p))
    ensures forall used: nat :: AllJustified(cfg, args, Deliver(event, w, Words(w, used, p)))
  {
    var words, events := [w] + p.words, [event] + p.events;
    assert forall k :: 0 < k < |words| ==> words[k] == p.words[k - 1];
    assert forall k :: 0 < k < |events| ==> events[k] == p.events[k - 1];
  }

  /** The outputs of every call name the option that was read, and the code follows from the option string or table. */
  lemma {:induction false} EventsJustified(cfg: Config, args: seq<CString>, i: nat)
    requires i <= |args|
    ensures AllJustified(cfg, args, ParseArgs(cfg, args, i))
    decreases |args| - i, if i < |args| then |args[i]| + 1 else 0
  {
    if i == |args| {
    } else if IsOperand(args[i]) {
      EventsJustified(cfg, args, i + 1);
    } else if IsLong(args[i]) {
      var (event, used) := ReadLong(cfg, args, i);
      EventsJustified(cfg, args, i + used);
      LongJustified(cfg, args, i);
      JustifiedMore(cfg, args, i, event, ParseArgs(cfg, args, i + used));
    } else {
      ClusterJustified(cfg, args, i, 1);
    }
  }

  lemma LongJustified(cfg: Config, args: seq<CString>, i: nat)
    requires i < |args| && IsLong(args[i])
    ensures Justified(cfg, args, i, ReadLong(cfg, args, i).0)
  {
    if cfg.longopts.Some? {
      ChosenIsSelected(cfg.longopts.value, args[i][2..NameEnd(args[i], 2)]);
    }
  }

  lemma {:induction false} ClusterJustified(cfg: Config, args: seq<CString>, i: nat, off: nat)
    requires i < |args| && 1 <= off <= |args[i]| && !IsLong(args[i])
    ensures AllJustified(cfg, args, ParseCluster(cfg, args, i, off))
    decreases |args| - i, |args[i]| - off
  {
    if off == |args[i]| {
      EventsJustified(cfg, args, i + 1);
    } else {
      var c := args[i][off];
      DefinedInOptstring(cfg.optstring, c);
      match KindOf(cfg.optstring, c)
      case Undefined =>
        if c != '-' {
          ClusterJustified(cfg, args, i, off + 1);
          assert FromLetter(cfg, args, i, ShortEvent('?', c, Null), off);
          JustifiedMore(cfg, args, i, ShortEvent('?', c, Null), ParseCluster(cfg, args, i, off + 1));
        }
      case NoArgument =>
        ClusterJustified(cfg, args, i, off + 1);
        assert FromLetter(cfg, args, i, ShortEvent(c, c, Null), off);
        JustifiedMore(cfg, args, i, ShortEvent(c, c, Null), ParseCluster(cfg, args, i, off + 1));
      case _ =>
        var used := if off + 1 == |args[i]| && i + 1 < |args| then 2 else 1;
        EventsJustified(cfg, args, i + used);
        assert FromLetter(cfg, args, i, ParseCluster(cfg, args, i, off).events[0], off);
        JustifiedMore(cfg, args, i, ParseCluster(cfg, args, i, off).events[0], ParseArgs(cfg, args, i + used));
    }
  }
}
