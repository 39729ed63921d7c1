/** The scanner of tools/cmdopt.cc: it delivers one option a call and permutes `argv` in place. */
module CmdOptScanner {
  import opened CStrings
  import opened CmdOptSpec

  /** What a call of `Get` finds to print. */
  datatype Diagnostic = Silent | ShortOption(c: int) | LongName(name: CString) | LongText(text: CharPtr)

  /** `argv` as the scanner leaves it: what it has read in front, then the unread arguments, then the operands. */
  function Layout(front: seq<CharPtr>, unread: seq<CharPtr>, back: seq<CharPtr>): seq<CharPtr> {
    [At(0, 0)] + front + unread + back + [Null]
  }

  /** `s` with element `lo` moved to just before `hi`. */
  function Rotated<T>(s: seq<T>, lo: nat, hi: nat): seq<T>
    requires lo < hi <= |s|
  {
    s[..lo] + s[lo + 1..hi] + [s[lo]] + s[hi..]
  }

  /** Moves `a[lo]` to just before `hi` and the elements between one place down. */
  method Rotate<T>(a: array<T>, lo: nat, hi: nat)
    requires lo < hi <= a.Length
    modifies a
    ensures a[..] == Rotated(old(a[..]), lo, hi)
  {
    var tmp := a[lo];
    var i := lo;
    while i < hi - 1
      invariant lo <= i < hi
      invariant forall k :: 0 <= k < lo || i <= k < a.Length ==> a[k] == old(a[k])
      invariant forall k :: lo <= k < i ==> a[k] == old(a[k + 1])
    {
      a[i] := a[i + 1];
      i := i + 1;
    }
    a[i] := tmp;
  }

  lemma RotatedLayout(front: seq<CharPtr>, unread: seq<CharPtr>, back: seq<CharPtr>)
    requires unread != []
    ensures Rotated(Layout(front, unread, back), 1 + |front|, 1 + |front| + |unread| + |back|)
         == Layout(front, unread[1..], back + [unread[0]])
  {
  }

  lemma FirstOfPointers(from: nat, to: nat)
    requires from < to
    ensures Pointers(from, to) == [At(from, 0)] + Pointers(from + 1, to)
  {
  }

  /** `front` and `back` are what `whole` puts before the options and operands of `rest`. */
  ghost predicate Accounts(whole: Parse, front: seq<CharPtr>, back: seq<CharPtr>, rest: Parse) {
    front + rest.options == whole.options && back + rest.operands == whole.operands
  }

  lemma MoveAccounts(whole: Parse, front: seq<CharPtr>, back: seq<CharPtr>, p: Parse,
                     ps: seq<CharPtr>, qs: seq<CharPtr>, rest: Parse)
    requires Accounts(whole, front, back, p)
    requires p.options == ps + rest.options && p.operands == qs + rest.operands
    ensures Accounts(whole, front + ps, back + qs, rest)
  {
    assert (front + ps) + rest.options == front + p.options;
    assert (back + qs) + rest.operands == back + p.operands;
  }

  class CmdOpt {
    /** The strings that the elements of `argv` point to. */
    const args: seq<CString>
    /** `argc` pointers and a null. */
    const argv: array<CharPtr>
    const cfg: Config

    var optind: int
    var nextchar: CharPtr
    var optarg: CharPtr
    var optopt: int
    var optlong: CharPtr
    var opterr: int
    var longindex: int
    var optnum: int
    /** The `int` variables that options point to with `flag`. */
    var flags: map<nat, int>

    /** The elements that were read, and the operands that were moved behind the unread elements. */
    ghost var front: seq<CharPtr>
    ghost var back: seq<CharPtr>

    // ----- Invariant

    /** The unread arguments sit in order at `argv[optind..optnum]`. */
    ghost predicate Window()
      reads this, argv
    {
      && optind == 1 + |front| && optnum == |args| - |back| && optind <= optnum
      && argv[..] == Layout(front, Pointers(Next(), |args|), back)
    }

    /** The cursor, when set, is inside the first unread argument. */
    ghost predicate Shape()
      reads this, argv
    {
      Window() && (nextchar != Null && optind < optnum ==> InWord(nextchar))
    }

    ghost predicate InWord(p: CharPtr)
      reads this
    {
      p.At? && p.arg == Next() < |args| && 1 <= p.off <= |args[p.arg]|
    }

    /** The first unread argument. */
    ghost function Next(): int
      reads this
    {
      |args| - optnum + optind
    }

    /** What is left to deliver. */
    ghost function Remaining(): Parse
      requires Shape()
      reads this, argv
    {
      if nextchar != Null && optind < optnum then ParseCluster(cfg, args, Next(), nextchar.off)
      else ParseArgs(cfg, args, Next())
    }

    /** The scanner's state is that of a run over the whole command line. */
    ghost predicate Valid()
      reads this, argv
    {
      Shape() && Accounts(ParseArgs(cfg, args, 1), front, back, Remaining())
    }

    /** Unread characters of the first unread argument; an argument not yet started counts one more. */
    ghost function Unread(): int
      requires Shape()
      reads this, argv
    {
      if optind == optnum then 0
      else if nextchar == Null then |args[Next()]| + 1
      else |args[Next()]| - nextchar.off
    }

    ghost function Outputs(value: int): Event
      reads this
    {
      Event(value, optopt, optarg, optlong, longindex)
    }

    // ----- Operations

    constructor (args: seq<CString>, argv: array<CharPtr>, optstring: Option<CString>,
                 longopts: Option<seq<LongOption>>, flags: map<nat, int>)
      requires |args| >= 1 && argv[..] == Pointers(0, |args|) + [Null]
      ensures this.args == args && this.argv == argv && this.flags == flags
      ensures cfg == Config(if optstring == None then "" else optstring.value, longopts)
      ensures Valid() && Remaining() == ParseArgs(cfg, args, 1) && opterr == 1
    {
      this.args, this.argv, this.flags := args, argv, flags;
      optnum := |args|;
      cfg := Config(if optstring == None then "" else optstring.value, longopts);
      optind := 1;
      nextchar, optarg, optopt, optlong := Null, Null, 0, Null;
      opterr, longindex := 1, 0;
      front, back := [], [];
      new;
      FirstOfPointers(0, |args|);
      assert argv[..] == Layout([], Pointers(1, |args|), []);
    }

    function Deref(p: CharPtr): char
      requires p.At? && p.arg < |args| && p.off <= |args[p.arg]|
    {
      CharAt(args[p.arg], p.off)
    }

    /** The element that the scanner reads next. */
    lemma Current()
      requires Window() && optind < optnum
      ensures optind < argv.Length && argv[optind] == At(Next(), 0)
      ensures Pointers(Next(), |args|) == [At(Next(), 0)] + Pointers(Next() + 1, |args|)
    {
      FirstOfPointers(Next(), |args|);
      assert argv[optind] == argv[..][optind];
    }

    /** Rotates the first unread argument to the end of `argv`. */
    method Shift()
      requires Window() && optind < optnum
      modifies this`nextchar, this`optnum, this`back, argv
      ensures Window() && nextchar == Null && back == old(back) + [At(old(Next()), 0)]
    {
      Current();
      RotatedLayout(front, Pointers(Next(), |args|), back);
      Rotate(argv, optind, |args|);
      back := back + [At(Next(), 0)];
      nextchar := Null;
      optnum := optnum - 1;
    }

    /** Moves to the next argument. */
    method Advance()
      requires Window() && optind < optnum
      modifies this`optind, this`nextchar, this`front
      ensures Window() && nextchar == Null && front == old(front) + [At(old(Next()), 0)]
    {
      Current();
      front := front + [At(Next(), 0)];
      optind := optind + 1;
      nextchar := Null;
      assert argv[..] == Layout(front, Pointers(Next(), |args|), back);
    }

    /** 0 for an operand, 1 for short options (or "--"), 2 for a long option. */
    method Check() returns (kind: int)
      requires Shape() && optind < optnum
      ensures kind == if IsOperand(args[Next()]) then 0 else if IsLong(args[Next()]) then 2 else 1
      ensures kind <= |args[Next()]|
    {
      Current();
      var ret := 1;
      var arg := argv[optind];
      if Deref(arg) != '-' {
        return 0;
      }
      arg := arg.(off := arg.off + 1);
      if Deref(arg) == '-' {
        arg := arg.(off := arg.off + 1);
        ret := ret + 1;
      }
      return ret - if Deref(arg) == '\0' then 1 else 0;
    }

    /** Takes the argument of a short option: the rest of the element, or else the next element. */
    method GetArgument()
      requires Shape() && optind < optnum && nextchar != Null
      modifies this`optind, this`nextchar, this`optarg, this`front
      ensures Shape() && (optind < optnum ==> nextchar == Null)
      ensures optarg ==
              if old(nextchar.off) < |args[old(Next())]| then old(nextchar)
              else if old(Next()) + 1 < |args| then At(old(Next()) + 1, 0)
              else Null
      ensures Next() == old(Next()) + if optarg != Null && optarg.arg != old(Next()) then 2 else 1
      ensures front == old(front) + Pointers(old(Next()), Next())
    {
      if Deref(nextchar) == '\0' {
        Advance();
        if optind < optnum {
          Current();
        }
        nextchar := argv[optind];
      }
      if optind < optnum {
        optarg := nextchar;
        Advance();
      } else {
        optarg := Null;
      }
    }

    // ----- Short options

    /** What a call promises: it delivers the next event of the parse, or answers -1 when there is none. */
    twostate predicate Stepped(value: int)
      requires old(Shape())
      reads this, argv
    {
      && Valid()
      && (if old(Remaining()).events == [] then value == -1 && optind == optnum
          else old(Remaining()).events == [Outputs(value)] + Remaining().events)
    }

    /** Ends the options: every unread argument but the first becomes an operand. */
    method Terminate()
      requires Window() && optind < optnum
      modifies this`optind, this`optnum, this`nextchar, this`front, this`back, argv
      ensures Window() && optind == optnum && Next() == |args|
      ensures front == old(front) + [At(old(Next()), 0)]
      ensures back == old(back) + Pointers(old(Next()) + 1, |args|)
    {
      Advance();
      ghost var all := back + Pointers(Next(), |args|);
      while optind < optnum
        invariant Window() && front == old(front) + [At(old(Next()), 0)]
        invariant back + Pointers(Next(), |args|) == all
      {
        FirstOfPointers(Next(), |args|);
        Shift();
      }
    }

    /** Finds the first place of `c` in the option string, or its end. */
    method Find(c: Char) returns (ptr: nat)
      ensures ptr <= |cfg.optstring|
      ensures KindOf(cfg.optstring, c) == KindAt(cfg.optstring, ptr)
    {
      ptr := 0;
      while CharAt(cfg.optstring, ptr) != '\0'
        invariant ptr <= |cfg.optstring| && KindOf(cfg.optstring[ptr..], c) == KindOf(cfg.optstring, c)
        decreases |cfg.optstring| - ptr
      {
        if cfg.optstring[ptr] == c {
          return;
        }
        ptr := ptr + 1;
      }
    }

    /** The short option under the cursor. */
    ghost function Letter(): Char
      requires Shape() && optind < optnum && nextchar != Null && nextchar.off < |args[Next()]|
      reads this, argv
    {
      args[Next()][nextchar.off]
    }

    /** After a short option took its argument, one event less is left. */
    twostate lemma AfterArgument(value: int)
      requires old(Valid() && optind < optnum && nextchar != Null && nextchar.off < |args[Next()]|)
      requires KindOf(cfg.optstring, old(Letter())) in {Required, Optional}
      requires Shape() && (optind < optnum ==> nextchar == Null)
      requires optarg ==
               if old(nextchar.off) + 1 < |args[old(Next())]| then old(nextchar.(off := nextchar.off + 1))
               else if old(Next()) + 1 < |args| then At(old(Next()) + 1, 0)
               else Null
      requires Next() == old(Next()) + if optarg != Null && optarg.arg != old(Next()) then 2 else 1
      requires front == old(front) + Pointers(old(Next()), Next()) && back == old(back)
      requires optopt == CharValue(old(Letter())) && optlong == Null && longindex == 0
      requires value ==
               if optarg == Null && KindOf(cfg.optstring, old(Letter())) == Required then ':' as int else optopt
      ensures Stepped(value)
    {
      MoveAccounts(ParseArgs(cfg, args, 1), old(front), old(back), old(Remaining()),
                   Pointers(old(Next()), Next()), [], Remaining());
    }

    /** After the options have ended, nothing is left. */
    twostate lemma AfterTerminate()
      requires old(Valid() && optind < optnum && nextchar != Null && nextchar.off < |args[Next()]|)
      requires old(Letter()) == '-' && KindOf(cfg.optstring, '-') == Undefined
      requires Window() && optind == optnum && Next() == |args|
      requires front == old(front) + [At(old(Next()), 0)]
      requires back == old(back) + Pointers(old(Next()) + 1, |args|)
      ensures Stepped(-1)
    {
      MoveAccounts(ParseArgs(cfg, args, 1), old(front), old(back), old(Remaining()),
                   [At(old(Next()), 0)], Pointers(old(Next()) + 1, |args|), Remaining());
    }

    /** Delivers the short option under the cursor. */
    method Search() returns (value: int)
      requires Valid() && optind < optnum && nextchar != Null && Deref(nextchar) != '\0'
      requires optarg == Null && optlong == Null && longindex == 0
      modifies this`optind, this`optnum, this`nextchar, this`optarg, this`optopt, this`front, this`back, argv
      ensures Stepped(value)
      ensures optind > old(optind) || (optind == old(optind) && nextchar == old(nextchar.(off := nextchar.off + 1)))
      ensures optnum <= old(optnum)
    {
      var c := Deref(nextchar);
      optopt := CharValue(c);
      nextchar := nextchar.(off := nextchar.off + 1);
      var ptr := Find(c);
      if CharAt(cfg.optstring, ptr) != '\0' {
        value := optopt;
        if CharAt(cfg.optstring, ptr + 1) == ':' {
          GetArgument();
          if optarg == Null && CharAt(cfg.optstring, ptr + 2) != ':' {
            value := ':' as int;
          }
          AfterArgument(value);
        }
      } else if c == '-' {
        Terminate();
        value := -1;
        AfterTerminate();
      } else {
        value := '?' as int;
      }
    }

    // ----- Long options

    /** Minus the length of the text before '=' or the end when it is a prefix of `opt`, and otherwise 0. */
    method MatchLen(opt: CString, text: CString, from: nat) returns (r: int)
      requires from <= |text|
      ensures var name := text[from..NameEnd(text, from)]; r == if name <= opt then -|name| else 0
    {
      var len := 0;
      ghost var name := text[from..NameEnd(text, from)];
      while CharAt(text, from + len) != '\0' && CharAt(text, from + len) != '='
        invariant 0 <= len <= |opt| && from + len <= |text| && NameEnd(text, from + len) == NameEnd(text, from)
        invariant forall k :: 0 <= k < len ==> text[from + k] == opt[k]
        decreases |text| - len
      {
        if CharAt(text, from + len) != CharAt(opt, len) {
          assert len < |name| && name[len] == text[from + len];
          assert len < |opt| ==> name[len] != opt[len];
          return 0;
        }
        len := len + 1;
      }
      assert |name| == len && forall k :: 0 <= k < len ==> name[k] == opt[k];
      r := if CharAt(text, from + len) == '\0' || CharAt(text, from + len) == '=' then -len else len;
    }

    /** The text of a long option from the cursor to '=' or the end. */
    ghost function Name(p: CharPtr): CString
      requires p.At? && p.arg < |args| && p.off <= |args[p.arg]|
    {
      args[p.arg][p.off..NameEnd(args[p.arg], p.off)]
    }

    ghost function Matched(p: CharPtr): int
      requires p.At? && p.arg < |args| && p.off <= |args[p.arg]|
    {
      if cfg.longopts == None then -1 else LongIndex(cfg.longopts.value, Name(p))
    }

    /** Selects a long option and moves the cursor past its name. */
    method Match() returns (k: int)
      requires nextchar.At? && nextchar.arg < |args| && nextchar.off <= |args[nextchar.arg]|
      modifies this`nextchar
      ensures k == Matched(old(nextchar))
      ensures nextchar == if k == -1 then old(nextchar)
                          else old(nextchar).(off := NameEnd(args[old(nextchar.arg)], old(nextchar.off)))
    {
      var max, maxIndex := 0, -1;
      if cfg.longopts == None {
        return maxIndex;
      }
      var table := cfg.longopts.value;
      ghost var name := Name(nextchar);
      var i := 0;
      while i < |table|
        invariant 0 <= i <= |table| && nextchar == old(nextchar)
        invariant max == 0 && maxIndex == -1
        invariant forall j :: 0 <= j < i ==> !Selects(table, name, j)
      {
        var len := MatchLen(table[i].name, args[nextchar.arg], nextchar.off);
        if len < 0 {
          nextchar := nextchar.(off := nextchar.off - len);
          assert Selects(table, name, i);
          return i;
        }
        max, maxIndex := if len > max then len else max, if len > max then i else if len == max then -1 else maxIndex;
        i := i + 1;
      }
      nextchar := nextchar.(off := nextchar.off + max);
      return maxIndex;
    }

    /** Takes the argument of a long option: the text after '=', or else the next element. */
    method GetArgumentLong()
      requires Shape() && optind < optnum && nextchar != Null
      modifies this`optind, this`nextchar, this`optarg, this`front
      ensures Window() && nextchar == Null
      ensures optarg ==
              if old(Deref(nextchar)) == '=' then old(nextchar.(off := nextchar.off + 1))
              else if old(Next()) + 1 < |args| then At(old(Next()) + 1, 0)
              else Null
      ensures Next() == old(Next()) + if optarg != Null && optarg.arg != old(Next()) then 2 else 1
      ensures front == old(front) + Pointers(old(Next()), Next())
    {
      if Deref(nextchar) == '=' {
        optarg := nextchar.(off := nextchar.off + 1);
        Advance();
      } else {
        Advance();
        if optind < optnum {
          Current();
          optarg := argv[optind];
          Advance();
        } else {
          optarg := Null;
        }
      }
    }

    /** Selects the long option whose name starts at the cursor, and takes its argument if it has or wants one. */
    method TakeLong() returns (unwanted: bool)
      requires Shape() && optind < optnum && nextchar == At(Next(), 2) && IsLong(args[Next()])
      requires optarg == Null
      modifies this`optind, this`nextchar, this`optarg, this`optlong, this`longindex, this`front
      ensures var (event, used) := ReadLong(cfg, args, old(Next()));
              && optarg == event.optarg && optlong == event.optlong && longindex == event.longindex
              && ((LeftAtEnd(old(Next())) && used == 1) || PassedOver(old(Next()), used))
      ensures unwanted <==> longindex >= 0 && cfg.longopts.value[longindex].hasArg == 0 && optarg != Null
      ensures Shape() && front == old(front) + Pointers(old(Next()), Next())
    {
      Current();
      optlong := argv[optind];
      longindex := Match();
      unwanted := false;
      if longindex < 0 {
        Advance();
      } else {
        var option := cfg.longopts.value[longindex];
        unwanted := option.hasArg == 0 && Deref(nextchar) == '=';
        if option.hasArg != 0 || unwanted {
          GetArgumentLong();
        }
      }
    }

    /** Delivers the long option whose name starts at the cursor; its flag is only set when all is well. */
    method SearchLong() returns (value: int)
      requires Shape() && optind < optnum && nextchar == At(Next(), 2) && IsLong(args[Next()])
      requires optarg == Null && optopt == 0
      modifies this`optind, this`nextchar, this`optarg, this`optlong, this`longindex, this`flags, this`front
      ensures var (event, used) := ReadLong(cfg, args, old(Next()));
              Outputs(value) == event && ((LeftAtEnd(old(Next())) && used == 1) || PassedOver(old(Next()), used))
      ensures Shape() && front == old(front) + Pointers(old(Next()), Next())
      ensures flags == StoredBy(cfg, Outputs(value), old(flags))
      ensures value != '?' as int ==> IsEntry(longindex)
    {
      var unwanted := TakeLong();
      if longindex < 0 {
        value := '?' as int;
      } else {
        var option := cfg.longopts.value[longindex];
        if option.hasArg != 0 && optarg == Null {
          value := ':' as int;
        } else if unwanted {
          value := '?' as int;
        } else if option.flag != None {
          flags := flags[option.flag.value := option.val];
          value := 0;
        } else {
          value := option.val;
        }
      }
    }

    ghost predicate LeftAtEnd(i: int)
      reads this
    {
      Next() == i && 0 <= i < |args| && nextchar == At(i, |args[i]|)
    }

    ghost predicate PassedOver(i: int, used: nat)
      reads this
    {
      Next() == i + used && nextchar == Null
    }

    // ----- The scanner

    /** After an operand went to the back, the same options are left. */
    twostate lemma AfterShift()
      requires old(Valid()) && Shape() && nextchar == Null == old(nextchar)
      requires old(optind < optnum) && IsOperand(args[old(Next())])
      requires front == old(front) && back == old(back) + [At(old(Next()), 0)]
      ensures Valid() && Remaining().events == old(Remaining()).events
    {
      MoveAccounts(ParseArgs(cfg, args, 1), old(front), old(back), old(Remaining()),
                   [], [At(old(Next()), 0)], Remaining());
    }

    /** After the cursor left an element that is read to its end, the same options are left. */
    twostate lemma AfterAdvance()
      requires old(Valid()) && Shape() && nextchar == Null
      requires old(optind < optnum && LeftAtEnd(Next()))
      requires front == old(front) + [At(old(Next()), 0)] && back == old(back)
      ensures Valid() && Remaining().events == old(Remaining()).events
    {
      MoveAccounts(ParseArgs(cfg, args, 1), old(front), old(back), old(Remaining()),
                   [At(old(Next()), 0)], [], Remaining());
    }

    /** After a long option, one event less is left. */
    twostate lemma AfterLong(value: int)
      requires old(Valid()) && Shape() && old(optind < optnum && nextchar == Null && IsLong(args[Next()]))
      requires var (event, used) := ReadLong(cfg, args, old(Next()));
               Outputs(value) == event && ((LeftAtEnd(old(Next())) && used == 1) || PassedOver(old(Next()), used))
      requires front == old(front) + Pointers(old(Next()), Next()) && back == old(back)
      ensures Stepped(value)
    {
      var i := old(Next());
      var (event, used) := ReadLong(cfg, args, i);
      assert old(Remaining()) == ParseLong(cfg, args, i);
      MoveAccounts(ParseArgs(cfg, args, 1), old(front), old(back), old(Remaining()),
                   Pointers(i, Next()), [], Remaining());
    }

    /** Fewer arguments are unread than `words`, or as many and fewer characters than `chars`. */
    ghost predicate Before(words: int, chars: int)
      requires Shape()
      reads this, argv
    {
      0 <= optnum - optind < words || (optnum - optind == words && 0 <= Unread() < chars)
    }

    /** No output is set yet. */
    ghost predicate Cleared()
      reads this
    {
      optopt == 0 && optlong == Null && optarg == Null && longindex == 0
    }

    /** Starts on an element: passes over an operand, enters short options, or delivers a long option. */
    method Begin() returns (done: bool, value: int)
      requires Valid() && optind < optnum && nextchar == Null && Cleared()
      modifies this`optind, this`optnum, this`nextchar, this`optarg, this`optopt, this`optlong, this`longindex,
               this`flags, this`front, this`back, argv
      ensures !done ==> Valid() && Remaining().events == old(Remaining()).events && Cleared() && flags == old(flags)
      ensures done ==> Stepped(value) && flags == StoredBy(cfg, Outputs(value), old(flags))
      ensures done && value != '?' as int ==> IsEntry(longindex)
      ensures Before(old(optnum - optind), old(Unread()))
    {
      done, value := false, 0;
      var kind := Check();
      if kind == 0 {
        Shift();
        AfterShift();
      } else {
        Current();
        nextchar := argv[optind].(off := kind);
        if kind == 2 {
          value := SearchLong();
          AfterLong(value);
          done := true;
        }
      }
    }

    ghost predicate IsEntry(k: int)
    {
      cfg.longopts.Some? && 0 <= k < |cfg.longopts.value|
    }

    /** One turn of the scanner's loop: it delivers an option or passes over something that is none. */
    method Turn() returns (done: bool, value: int)
      requires Valid() && optind < optnum && Cleared()
      modifies this`optind, this`optnum, this`nextchar, this`optarg, this`optopt, this`optlong, this`longindex,
               this`flags, this`front, this`back, argv
      ensures !done ==> Valid() && Remaining().events == old(Remaining()).events && Cleared() && flags == old(flags)
      ensures done ==> Stepped(value) && flags == StoredBy(cfg, Outputs(value), old(flags))
      ensures done && optlong != Null && value != '?' as int ==> IsEntry(longindex)
      ensures !done || old(Remaining()).events != [] ==> Before(old(optnum - optind), old(Unread()))
    {
      if nextchar == Null {
        done, value := Begin();
      } else if Deref(nextchar) == '\0' {
        Advance();
        AfterAdvance();
        done, value := false, 0;
      } else {
        value := Search();
        done := true;
      }
    }

    /** `cmdopt_main`: delivers the next option. */
    method Run() returns (value: int)
      requires Valid()
      modifies this`optind, this`optnum, this`nextchar, this`optarg, this`optopt, this`optlong, this`longindex,
               this`flags, this`front, this`back, argv
      ensures Stepped(value)
      ensures flags == StoredBy(cfg, Outputs(value), old(flags))
      ensures optlong != Null && value != '?' as int ==> IsEntry(longindex)
      ensures old(Remaining()).events != [] ==> Before(old(optnum - optind), old(Unread()))
    {
      optopt := 0;
      optlong := Null;
      optarg := Null;
      longindex := 0;

      while optind < optnum
        invariant Valid() && Remaining().events == old(Remaining()).events
        invariant Cleared() && flags == old(flags)
        invariant optnum - optind <= old(optnum - optind)
        invariant optnum - optind == old(optnum - optind) ==> Unread() <= old(Unread())
        decreases optnum - optind, Unread()
      {
        var done;
        done, value := Turn();
        if done {
          return;
        }
      }
      return -1;
    }

    /** `cmdopt_get`: delivers the next option and the warning to print. */
    method Get() returns (value: int, warning: Diagnostic)
      requires Valid()
      modifies this`optind, this`optnum, this`nextchar, this`optarg, this`optopt, this`optlong, this`longindex,
               this`flags, this`front, this`back, argv
      ensures Stepped(value)
      ensures flags == StoredBy(cfg, Outputs(value), old(flags))
      ensures old(Remaining()).events != [] ==> Before(old(optnum - optind), old(Unread()))
      ensures warning.LongName? ==> IsEntry(longindex) && warning.name == cfg.longopts.value[longindex].name
      ensures if opterr == 0 || value == -1 || (value !in {':' as int, '?' as int} && opterr != 2)
              then warning == Silent
              else if optlong == Null then warning == ShortOption(optopt)
              else if value == '?' as int then warning == LongText(optlong)
              else warning.LongName?
    {
      value := Run();
      warning := Silent;
      if opterr != 0 {
        if value == ':' as int {
          warning := if optlong == Null then ShortOption(optopt) else LongName(cfg.longopts.value[longindex].name);
        } else if value == '?' as int {
          warning := if optlong == Null then ShortOption(optopt) else LongText(optlong);
        } else if value != -1 && opterr == 2 {
          warning := if optlong == Null then ShortOption(optopt) else LongName(cfg.longopts.value[longindex].name);
        }
      }
    }
  }
}
