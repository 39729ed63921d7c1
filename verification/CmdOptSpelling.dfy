/** When two spellings of the same options may replace each other in a command line. */
module CmdOptSpelling {
  import opened CStrings
  import opened CmdOptSpec
  import opened CmdOptMeaning

  // ----- Command lines read in two parts

  function Join(m: Meaning, n: Meaning): Meaning {
    Meaning(m.items + n.items, m.operands + n.operands, n.ending)
  }

  /** What is said when `post` follows words that said `m`. */
  function Continue(cfg: Config, m: Meaning, post: seq<CString>): Meaning {
    if post == [] then m
    else
      match m.ending
      case Open => Join(m, Mean(cfg, post))
      case Ended => m.(operands := m.operands + post)
      case Pending(code) =>
        var before := if m.items == [] then [] else m.items[..|m.items| - 1];
        Join(m.(items := before + [Item(code, Some(post[0]))]), Mean(cfg, post[1..]))
  }

  ghost predicate Proper(m: Meaning) {
    m.ending.Pending? ==> m.items != []
  }

  lemma ContinueSay(cfg: Config, item: Item, m: Meaning, post: seq<CString>)
    requires Proper(m)
    ensures Continue(cfg, Say(item, m), post) == Say(item, Continue(cfg, m, post))
  {
    if m.items != [] {
      assert ([item] + m.items)[..|m.items|] == [item] + m.items[..|m.items| - 1];
    }
  }

  /** Reading a command line in two parts: the second part is read as the first one leaves it. */
  lemma {:induction false} Compose(cfg: Config, pre: seq<CString>, post: seq<CString>)
    ensures Mean(cfg, pre + post) == Continue(cfg, Mean(cfg, pre), post)
    ensures Proper(Mean(cfg, pre))
    decreases |pre|, if pre == [] then 0 else |pre[0]| + 1
  {
    if pre == [] {
      assert pre + post == post;
    } else {
      var rest := pre[1..];
      assert (pre + post)[1..] == rest + post;
      if IsOperand(pre[0]) {
        Compose(cfg, rest, post);
      } else if IsLong(pre[0]) {
        ComposeLong(cfg, pre[0], rest, post);
      } else {
        ComposeCluster(cfg, pre[0][1..], rest, post);
      }
    }
  }

  lemma {:induction false} ComposeCluster(cfg: Config, letters: CString, rest: seq<CString>, post: seq<CString>)
    ensures MeanCluster(cfg, letters, rest + post) == Continue(cfg, MeanCluster(cfg, letters, rest), post)
    ensures Proper(MeanCluster(cfg, letters, rest))
    decreases |rest| + 1, |letters|
  {
    if letters == [] {
      Compose(cfg, rest, post);
    } else {
      var c := letters[0];
      var item := Item(if KindOf(cfg.optstring, c) == Undefined then '?' as int else CharValue(c), None);
      if KindOf(cfg.optstring, c) in {Undefined, NoArgument} {
        if KindOf(cfg.optstring, c) == NoArgument || c != '-' {
          ComposeCluster(cfg, letters[1..], rest, post);
          ContinueSay(cfg, item, MeanCluster(cfg, letters[1..], rest), post);
        }
      } else if letters[1..] != [] {
        Compose(cfg, rest, post);
        ContinueSay(cfg, item.(arg := Some(letters[1..])), Mean(cfg, rest), post);
      } else {
        assert [] + post == post;
        if rest != [] {
          ComposeArgument(cfg, CharValue(c), rest, post);
        }
      }
    }
  }

  lemma {:induction false} ComposeLong(cfg: Config, word: CString, rest: seq<CString>, post: seq<CString>)
    requires IsLong(word)
    ensures MeanLong(cfg, word, rest + post) == Continue(cfg, MeanLong(cfg, word, rest), post)
    ensures Proper(MeanLong(cfg, word, rest))
    decreases |rest| + 1, 0
  {
    var end := NameEnd(word, 2);
    var k := if cfg.longopts == None then -1 else LongIndex(cfg.longopts.value, word[2..end]);
    if k >= 0 && end == |word| && cfg.longopts.value[k].hasArg != 0 {
      assert [] + post == post;
      if rest != [] {
        ComposeArgument(cfg, LongCode(cfg.longopts.value[k]), rest, post);
      }
    } else {
      Compose(cfg, rest, post);
      ContinueSay(cfg, MeanLong(cfg, word, rest).items[0], Mean(cfg, rest), post);
    }
  }

  /** The same for an option that takes the next word. */
  lemma {:induction false} ComposeArgument(cfg: Config, code: int, rest: seq<CString>, post: seq<CString>)
    requires rest != []
    ensures (rest + post)[0] == rest[0] && Proper(Mean(cfg, rest[1..]))
    ensures var item := Item(code, Some(rest[0]));
            Say(item, Mean(cfg, (rest + post)[1..])) == Continue(cfg, Say(item, Mean(cfg, rest[1..])), post)
    decreases |rest|, 0
  {
    assert (rest + post)[1..] == rest[1..] + post;
    Compose(cfg, rest[1..], post);
    ContinueSay(cfg, Item(code, Some(rest[0])), Mean(cfg, rest[1..]), post);
  }

  // ----- Replacing one spelling by another

  ghost predicate SaySame(m: Meaning, n: Meaning) {
    m.items == n.items && m.operands == n.operands
  }

  /**
   * Words may be replaced by others that say the same but begin differently exactly where the words before leave the
   * scanner to read them afresh: not as the argument of an option, and not after the options have ended.
   */
  lemma Respelled(cfg: Config, pre: seq<CString>, ones: seq<CString>, many: seq<CString>, post: seq<CString>)
    requires ones != [] && many != [] && many[0] != ones[0]
    requires Mean(cfg, ones + post) == Mean(cfg, many + post)
    ensures SaySame(Mean(cfg, pre + (ones + post)), Mean(cfg, pre + (many + post))) <==> Mean(cfg, pre).ending.Open?
  {
    Compose(cfg, pre, ones + post);
    Compose(cfg, pre, many + post);
    var m := Mean(cfg, pre);
    match m.ending
    case Open =>
    case Ended =>
      var n := |m.operands|;
      assert (m.operands + (ones + post))[n] == ones[0] && (m.operands + (many + post))[n] == many[0];
    case Pending(code) =>
      var n := |m.items| - 1;
      assert Mean(cfg, pre + (ones + post)).items[n] == Item(code, Some(ones[0]));
      assert Mean(cfg, pre + (many + post)).items[n] == Item(code, Some(many[0]));
  }

  /** Letters that neither take an argument nor end the options. */
  predicate Plain(cfg: Config, letters: CString) {
    forall c :: c in letters ==>
      KindOf(cfg.optstring, c) == NoArgument || (KindOf(cfg.optstring, c) == Undefined && c != '-')
  }

  /** One word for each letter. */
  function Spread(letters: CString): (words: seq<CString>) {
    seq(|letters|, k requires 0 <= k < |letters| => ['-', letters[k]])
  }

  lemma {:induction false} SpreadMeans(cfg: Config, letters: CString, post: seq<CString>)
    requires Plain(cfg, letters)
    ensures MeanCluster(cfg, letters, post) == Mean(cfg, Spread(letters) + post)
  {
    if letters == [] {
      assert Spread(letters) + post == post;
    } else {
      var rest := Spread(letters[1..]) + post;
      assert Spread(letters) + post == [['-', letters[0]]] + rest;
      SpreadMeans(cfg, letters[1..], post);
      assert ['-', letters[0]][1..] == [letters[0]];
      assert [letters[0]][1..] == [];
      assert MeanCluster(cfg, [], rest) == Mean(cfg, rest);
    }
  }

  /** `-abc` and `-a -b -c`. */
  lemma SpreadCluster(cfg: Config, pre: seq<CString>, letters: CString, post: seq<CString>)
    requires |letters| >= 2 && letters[0] != '-' && Plain(cfg, letters)
    ensures SaySame(Mean(cfg, pre + ([['-'] + letters] + post)), Mean(cfg, pre + (Spread(letters) + post)))
       <==> Mean(cfg, pre).ending.Open?
  {
    SpreadMeans(cfg, letters, post);
    assert (['-'] + letters)[1..] == letters;
    assert |Spread(letters)[0]| == 2;
    Respelled(cfg, pre, [['-'] + letters], Spread(letters), post);
  }

  /** An instance: after "--" the two spellings are operands, and differ. */
  lemma SpreadAfterEnd(cfg: Config, letters: CString, post: seq<CString>)
    requires |letters| >= 2 && letters[0] != '-' && Plain(cfg, letters)
    requires KindOf(cfg.optstring, '-') == Undefined
    ensures Mean(cfg, ["--"]).ending == Ended
    ensures !SaySame(Mean(cfg, ["--"] + ([['-'] + letters] + post)), Mean(cfg, ["--"] + (Spread(letters) + post)))
  {
    var dashes: CString := "--";
    assert dashes[1..] == ['-'];
    SpreadCluster(cfg, ["--"], letters, post);
  }

  /** An instance: behind an option that lacks its argument the first word of either spelling is that argument. */
  lemma SpreadAsArgument(cfg: Config, n: Char, letters: CString, post: seq<CString>)
    requires |letters| >= 2 && letters[0] != '-' && Plain(cfg, letters)
    requires n != '-' && KindOf(cfg.optstring, n) in {Required, Optional}
    ensures Mean(cfg, [['-', n]]).ending == Pending(CharValue(n))
    ensures !SaySame(Mean(cfg, [['-', n]] + ([['-'] + letters] + post)),
                     Mean(cfg, [['-', n]] + (Spread(letters) + post)))
  {
    var word: CString := ['-', n];
    assert word[1..] == [n];
    SpreadCluster(cfg, [word], letters, post);
  }

  lemma {:induction false} DetachMeans(cfg: Config, letters: CString, c: Char, text: CString, post: seq<CString>)
    requires Plain(cfg, letters) && KindOf(cfg.optstring, c) in {Required, Optional} && text != []
    ensures MeanCluster(cfg, letters + [c] + text, post) == MeanCluster(cfg, letters + [c], [text] + post)
  {
    if letters == [] {
      assert (letters + [c] + text)[1..] == text;
    } else {
      assert (letters + [c] + text)[1..] == letters[1..] + [c] + text;
      assert (letters + [c])[1..] == letters[1..] + [c];
      DetachMeans(cfg, letters[1..], c, text, post);
    }
  }

  /** `-abnV` and `-abn V`. */
  lemma DetachShort(cfg: Config, pre: seq<CString>, letters: CString, c: Char, text: CString, post: seq<CString>)
    requires Plain(cfg, letters) && KindOf(cfg.optstring, c) in {Required, Optional} && text != []
    requires (letters + [c])[0] != '-'
    ensures SaySame(Mean(cfg, pre + ([['-'] + letters + [c] + text] + post)),
                    Mean(cfg, pre + ([['-'] + letters + [c], text] + post)))
       <==> Mean(cfg, pre).ending.Open?
  {
    var one, word := ['-'] + letters + [c] + text, ['-'] + letters + [c];
    assert one[1..] == letters + [c] + text && word[1..] == letters + [c];
    assert one[1] == word[1] == (letters + [c])[0];
    assert ([word, text] + post)[1..] == [text] + post;
    DetachMeans(cfg, letters, c, text, post);
    Respelled(cfg, pre, [one], [word, text], post);
  }

  lemma NameEndAt(s: CString, off: nat, end: nat)
    requires off <= end <= |s| && '=' !in s[off..end] && (end < |s| ==> s[end] == '=')
    ensures NameEnd(s, off) == end
    decreases end - off
  {
  }

  /** `--name=V` and `--name V`. */
  lemma DetachLong(cfg: Config, pre: seq<CString>, name: CString, text: CString, post: seq<CString>)
    requires '=' !in name && cfg.longopts.Some?
    requires LongIndex(cfg.longopts.value, name) >= 0
    requires cfg.longopts.value[LongIndex(cfg.longopts.value, name)].hasArg != 0
    ensures SaySame(Mean(cfg, pre + (["--" + name + "=" + text] + post)),
                    Mean(cfg, pre + (["--" + name, text] + post)))
       <==> Mean(cfg, pre).ending.Open?
  {
    var one: CString, word: CString := "--" + name + "=" + text, "--" + name;
    var end := 2 + |name|;
    assert word[2..end] == name;
    assert one == word + (['='] + text) && one[..end] == word && one[end..] == ['='] + text;
    assert one[2..end] == one[..end][2..end] == name;
    NameEndAt(one, 2, end);
    NameEndAt(word, 2, end);
    assert one[end + 1..] == one[end..][1..] == text;
    assert ([word, text] + post)[1..] == [text] + post;
    Respelled(cfg, pre, [one], [word, text], post);
  }

  // ----- Long names

  /** An entry is selected by its own name unless an earlier name starts with it. */
  lemma SpelledInFull(table: seq<LongOption>, k: nat)
    requires k < |table|
    ensures LongIndex(table, table[k].name) == k
       <==> table[k].name != [] && forall j :: 0 <= j < k ==> !(table[k].name <= table[j].name)
  {
    var i := LongIndex(table, table[k].name);
    assert forall j :: 0 <= j < |table| && table[k].name != [] ==>
             (Selects(table, table[k].name, j) <==> table[k].name <= table[j].name);
  }

  /** When no name starts with another one, every entry is selected by its own name. */
  lemma PrefixFreeTable(table: seq<LongOption>, k: nat)
    requires k < |table| && table[k].name != []
    requires forall i, j :: 0 <= i < |table| && 0 <= j < |table| && i != j ==> !(table[i].name <= table[j].name)
    ensures LongIndex(table, table[k].name) == k
  {
    SpelledInFull(table, k);
  }

  /** An option with an optional argument is treated like one with a required argument. */
  function Strict(option: LongOption): LongOption {
    if option.hasArg == 2 then option.(hasArg := 1) else option
  }

  function StrictTable(table: seq<LongOption>): seq<LongOption> {
    seq(|table|, k requires 0 <= k < |table| => Strict(table[k]))
  }

  function StrictConfig(cfg: Config): Config {
    if cfg.longopts == None then cfg else cfg.(longopts := Some(StrictTable(cfg.longopts.value)))
  }

  lemma {:induction false} StrictIndex(table: seq<LongOption>, name: CString, from: nat)
    requires from <= |table|
    ensures LongIndexFrom(StrictTable(table), name, from) == LongIndexFrom(table, name, from)
    decreases |table| - from
  {
    if from == |table| {
    } else {
      StrictIndex(table, name, from + 1);
    }
  }

  /** Declaring the argument of a long option optional instead of required makes no difference to any command line. */
  lemma {:induction false} OptionalIsRequired(cfg: Config, args: seq<CString>)
    ensures Mean(StrictConfig(cfg), args) == Mean(cfg, args)
    decreases |args|, if args == [] then 0 else |args[0]| + 1
  {
    if args == [] {
    } else if IsOperand(args[0]) {
      OptionalIsRequired(cfg, args[1..]);
    } else if IsLong(args[0]) {
      if cfg.longopts.Some? {
        StrictIndex(cfg.longopts.value, args[0][2..NameEnd(args[0], 2)], 0);
      }
      OptionalIsRequired(cfg, args[1..]);
      if |args| > 1 {
        OptionalIsRequired(cfg, args[1..][1..]);
      }
    } else {
      OptionalIsRequiredCluster(cfg, args[0][1..], args[1..]);
    }
  }

  lemma {:induction false} OptionalIsRequiredCluster(cfg: Config, letters: CString, rest: seq<CString>)
    ensures MeanCluster(StrictConfig(cfg), letters, rest) == MeanCluster(cfg, letters, rest)
    decreases |rest| + 1, |letters|
  {
    if letters == [] {
      OptionalIsRequired(cfg, rest);
    } else {
      OptionalIsRequiredCluster(cfg, letters[1..], rest);
      OptionalIsRequired(cfg, rest);
      if rest != [] {
        OptionalIsRequired(cfg, rest[1..]);
      }
    }
  }

  /** A long option with a flag that is read without an error answers 0 and stores its value, not that answer. */
  lemma FlagAnswersZero(cfg: Config, args: seq<CString>, i: nat, flags: map<nat, int>)
    requires i < |args| && IsLong(args[i]) && cfg.longopts.Some?
    ensures var event := ReadLong(cfg, args, i).0;
            event.code !in {'?' as int, ':' as int} && cfg.longopts.value[event.longindex].flag.Some? ==>
              var option := cfg.longopts.value[event.longindex];
              event.code == 0 && StoredBy(cfg, event, flags) == flags[option.flag.value := option.val]
    ensures var event := ReadLong(cfg, args, i).0;
            event.code in {'?' as int, ':' as int} ==> StoredBy(cfg, event, flags) == flags
  {
  }

  /** A name spelled in full selects a longer name that stands before it. */
  lemma LongerNameShadows(a: LongOption, b: LongOption)
    requires a.name == "number" && b.name == "num"
    ensures LongIndex([a, b], "num") == 0
  {
  }
}
