# Verified models of the marisa-trie command line scanner and language bindings

The project models three parts of the repository and proves what their callers rely on.

1. **The option scanner of the tools** (`tools/cmdopt.cc`). `CmdOptScanner.CmdOpt` is the scanner: it delivers one
   option a call while it rotates operands to the end of `argv` in place. `CmdOptSpec.ParseArgs` is a parser that reads
   the command line once from left to right and moves nothing; `CmdOptMeaning.Mean` says the same in terms of text
   only. The scanner is proved to deliver exactly what the parser says for every command line, option string and table
   of long options, and properties of whole runs are proved of the parser.
2. **The type runtime of the SWIG wrappers** (`bindings/perl/marisa-swig_wrap.cxx`, also in the Python wrappers). It
   covers the ring of modules, the sorted type tables with their binary search, the doubly linked cast lists that a
   lookup reorders, the initialisation that makes modules share types, the marking of types with client data, and the
   packing of binary data as text.
3. **The query buffer of the bindings' `Agent`** (`bindings/marisa-swig.cxx`).

## Files

- `CStrings.dfy`: C strings, and pointers into the strings of a command line. A `char *` is the number of the argument
  that it points into and an offset, so equal texts at different places stay apart.
- `CmdOptSpec.dfy`, `CmdOptScanner.dfy`, `CmdOptRuns.dfy`: the parser, the scanner, and what holds of whole runs.
- `CmdOptMeaning.dfy`, `CmdOptSpelling.dfy`: what a command line says, and when spellings may replace each other.
- `CmdOptLaws.dfy`: what each kind of word says, in terms of the option string and the table alone.
- `SwigCasts.dfy`, `SwigModules.dfy`, `SwigRuntime.dfy`: cast lists, tables and ring search, and initialisation.
- `SwigMarking.dfy`: how client data spreads.
- `SwigRuns.dfy`: runs in which wrappers load modules, look types and casts up and give client data, in any order.
- `SwigHex.dfy`: packed data.
- `AgentBuffer.dfy`: the query buffer.

## Where code and comments disagree

The model follows the code.

- `tools/cmdopt.cc:109-114` and `:134-146` speak of a longest prefix match. Every match counts as perfect, so the first
  entry whose name starts with the given text wins, and a name spelled in full can lose to a longer one before it
  (`CmdOptSpelling.SpelledInFull` says exactly when, `CmdOptSpelling.LongerNameShadows` is an instance).
- `tools/cmdopt.h:12` lets an option with `has_arg` 2 go without an argument. The code treats 2 like 1
  (`CmdOptSpelling.OptionalIsRequired`).
- `tools/cmdopt.h:15-17` says that a `flag` variable gets the return value. It gets `val`, and the return value is 0
  (`CmdOptSpelling.FlagAnswersZero`).
- A '-' inside short options that is no option itself ends all options, and the rest of its element is dropped.
- `bindings/perl/marisa-swig_wrap.cxx:5106-5108` ignores a cast between two loaded types. The code adds it when the
  list lacks it.

## Assumptions

- `argc` is at least 1, the strings hold no null byte, `char` is signed, and the caller leaves the scanner's state alone
  between calls. Whole runs assume that no option answers -1, by which the tools end their loops.
- Generated SWIG modules have their types sorted by name, each name once, and share no structure. There is one
  interpreter. An index sum in the binary search does not exceed `size_t`.
- Client data that is spread is not null. With null the recursion of the original need not end.
- Allocation succeeds, and a query does not lie in the buffer that it is copied to.

## Model

| member | source | states |
|---|---|---|
| CmdOptScanner.CmdOpt.constructor | tools/cmdopt.cc:243-261 | A new scanner has everything left to deliver, with a null option string read as empty. |
| CmdOptScanner.Rotate | tools/cmdopt.cc:12-16 | The loop moves one element to the end and all others one place down, and changes nothing else. |
| CmdOptScanner.RotatedLayout | tools/cmdopt.cc:8-20 | One rotation of the whole tail turns the first unread argument into the last operand and keeps the order of both the unread arguments and the operands. |
| CmdOptScanner.CmdOpt.Shift | tools/cmdopt.cc:8-20 | The first unread argument becomes the last operand; the window of unread arguments loses its first element and stays the original sequence. |
| CmdOptScanner.CmdOpt.Advance | tools/cmdopt.cc:23-26 | The first unread argument joins the elements that were read, and the window stays the original sequence. |
| CmdOptScanner.CmdOpt.Check | tools/cmdopt.cc:29-43 | Tells operands (including "-" and the empty string), long options and short options apart. |
| CmdOptScanner.CmdOpt.GetArgument | tools/cmdopt.cc:46-60 | The argument of a short option is the rest of its element, or else the next original argument, or else null; it is used up and the window stays in order. |
| CmdOptScanner.CmdOpt.Find | tools/cmdopt.cc:69-72 | The loop finds the place that decides what the option string says of a character, colons included. |
| CmdOptScanner.CmdOpt.Terminate | tools/cmdopt.cc:85-88 | All unread arguments but the first become operands in their order. |
| CmdOptScanner.CmdOpt.Search | tools/cmdopt.cc:63-94 | Delivers the next event of the left-to-right parse, or -1 when a '-' ends the options, and keeps the state that of a run over the whole command line. |
| CmdOptScanner.CmdOpt.MatchLen | tools/cmdopt.cc:98-115 | The result is minus the length of the text before '=' or the end if that is a prefix of the name and 0 otherwise, so never positive. |
| CmdOptScanner.CmdOpt.Match | tools/cmdopt.cc:118-147 | Selects the least entry whose name starts with the non-empty text and moves the cursor to '=' or the end; otherwise answers -1 and leaves the cursor. |
| CmdOptScanner.CmdOpt.GetArgumentLong | tools/cmdopt.cc:150-165 | The argument of a long option is the text after '=', or else the next original argument, or else null. |
| CmdOptScanner.CmdOpt.TakeLong | tools/cmdopt.cc:168-189 | Selects the long option and takes its argument as the parse says, and leaves the cursor at the end of its element or at the next one. |
| CmdOptScanner.CmdOpt.SearchLong | tools/cmdopt.cc:168-203 | Delivers the event of the long option, stores through its flag only on success, and leaves an index of a real entry unless it answers '?'. |
| CmdOptScanner.CmdOpt.Run | tools/cmdopt.cc:206-238 | From every reachable state a call delivers the next event of the left-to-right parse or answers -1 exactly when there is none; a delivery leaves fewer arguments, or as many and fewer characters, unread. |
| CmdOptScanner.CmdOpt.Get | tools/cmdopt.cc:264-295 | The same with the warnings: a printed option name always comes from a real table entry. |
| CmdOptRuns.Next | tools/marisa-build.cc:147-147 | One turn of a tool's loop takes the first event off what is left, or finds nothing left and all options read. |
| CmdOptRuns.Drain | tools/marisa-build.cc:147-210 | The loop of a tool ends and has then taken exactly the events that the parse lists, with the flag variables as those events set them. |
| CmdOptRuns.ScanCommandLine | tools/cmdopt.cc:206-261 | For every command line the calls until -1 deliver exactly the events of the left-to-right parser, say exactly what the command line means, and leave `argv` as its first element, the options and their arguments, the operands, and null, with `optind` at the operands. |
| CmdOptRuns.Finished | tools/marisa-build.cc:211-212 | Once all is read, the operands of the parse stand at `argv + optind`. |
| CmdOptRuns.StablePartition | tools/cmdopt.cc:206-238 | Every argument ends up either among the options or among the operands, once, and both keep the original order. |
| CmdOptRuns.ArgumentProvenance | tools/cmdopt.cc:46-60 | Every option argument is part of the element of its option or all of the next argument, and such an argument holds no option itself. |
| CmdOptRuns.TakenWholeIsNothingElse | tools/cmdopt.cc:46-60 | An argument that an option took whole stands among the options, is no operand, and is never read for options. |
| CmdOptRuns.ReachableState | tools/cmdopt.cc:206-261 | In every reachable state `argv[optind..optnum)` is the original command line from some argument on, what is in front and behind begins the options and the operands of the whole run, and a set cursor points into the first unread argument. |
| CmdOptRuns.EventBound | tools/cmdopt.cc:206-238 | A run delivers no more options than there are characters behind the first ones of the arguments. |
| CmdOptRuns.CodesNotDone | tools/cmdopt.cc:206-238 | If no option answers -1, no delivered option does, so -1 means the end. |
| CmdOptSpec.NameEnd | tools/cmdopt.cc:102-107 | The name in a long option ends at the first '=' or at the end. |
| CmdOptSpec.LongIndex | tools/cmdopt.cc:127-142 | The least entry that starts with a non-empty text, or -1 exactly when none does. |
| CmdOptMeaning.ParseMeans | tools/cmdopt.cc:206-238 | The pointers that the parser delivers, read as text, are what the command line says without any pointers. |
| CmdOptSpelling.Compose | tools/cmdopt.cc:206-238 | A command line may be read in two parts: the second part is read afresh, with its first word as an option argument, or as operands, as the first part leaves it. |
| CmdOptSpelling.Respelled | tools/cmdopt.cc:206-238 | Words that say the same may replace one another exactly where the words before leave the scanner to read them afresh. |
| CmdOptSpelling.SpreadCluster | tools/cmdopt.cc:63-82 | `-abc` and `-a -b -c` give the same labels, arguments and operands, exactly at the places where a word is read afresh. |
| CmdOptSpelling.DetachShort | tools/cmdopt.cc:46-60 | `-abnV` and `-abn V` give the same, exactly at those places. |
| CmdOptSpelling.DetachLong | tools/cmdopt.cc:150-165 | `--name=V` and `--name V` give the same, exactly at those places. |
| CmdOptSpelling.SpreadAfterEnd | tools/cmdopt.cc:84-90 | An instance where the spellings differ: after "--" both are operands. |
| CmdOptSpelling.SpreadAsArgument | tools/cmdopt.cc:46-60 | An instance where the spellings differ: behind an option that lacks its argument the first word becomes that argument. |
| CmdOptSpelling.OptionalIsRequired | tools/cmdopt.cc:181-194 | Declaring the argument of a long option optional instead of required changes the meaning of no command line. |
| CmdOptSpelling.FlagAnswersZero | tools/cmdopt.cc:195-202 | A long option with a flag that is read without an error answers 0 and stores its `val`; after an error nothing is stored. |
| CmdOptLaws.KindBehind | tools/cmdopt.cc:69-78 | What stands behind the first place of a character in the option string decides: no ':' means no argument, one that it is required, and two that it is optional. |
| CmdOptLaws.OperandWord | tools/cmdopt.cc:29-43 | The empty word, "-", and words that do not start with '-' are operands wherever words are read afresh. |
| CmdOptLaws.EndWord | tools/cmdopt.cc:84-90 | "--" says nothing itself, and all words behind it are operands, unless '-' is an option. |
| CmdOptLaws.PlainLetter | tools/cmdopt.cc:63-82 | A character without ':' behind it delivers itself and no argument, and the next word is read afresh. |
| CmdOptLaws.LetterWithArgument | tools/cmdopt.cc:46-60 | A character with ':' behind it delivers itself with the rest of its word, or else with the next word. |
| CmdOptLaws.LetterLast | tools/cmdopt.cc:74-80 | Where no argument is left, one ':' in the option string makes the answer ':', and two let the option do without. |
| CmdOptLaws.UnknownLetter | tools/cmdopt.cc:83-94 | A character that is not in the option string answers '?'. |
| CmdOptLaws.LongPlain | tools/cmdopt.cc:168-203 | A long option without an argument delivers its value, or 0 with a flag; given an argument with '=' it answers '?'. |
| CmdOptLaws.LongWithArgument | tools/cmdopt.cc:150-203 | A long option with an argument takes the text behind '=' or else the next word, and answers ':' when there is neither. |
| CmdOptLaws.LongUnknown | tools/cmdopt.cc:175-179 | A long option whose text is empty or begins no name answers '?'. |
| CmdOptLaws.LongForShort | tools/marisa-build.cc:133-147 | A long option without a flag, whose value is an option character of the same kind, says the same as that character, exactly where words are read afresh. |
| CmdOptLaws.EventsJustified | tools/cmdopt.cc:206-238 | In every run `optopt`, `optlong`, `longindex` and `optarg` of each delivery name the option that stands in its word, and the answer follows from the option string or the table entry. |
| CmdOptSpelling.SpelledInFull | tools/cmdopt.cc:118-147 | A name spelled in full selects its own entry exactly when it is not empty and no earlier name starts with it. |
| CmdOptSpelling.PrefixFreeTable | tools/marisa-build.cc:133-143 | In a table where no name starts with another, every entry is selected by its own name. |
| CmdOptSpelling.LongerNameShadows | tools/cmdopt.cc:127-133 | An instance: `--num` selects "number" when that stands before "num". |
| SwigCasts.Unlink | bindings/perl/marisa-swig_wrap.cxx:442-444 | Taking a node out leaves a doubly linked list of the others in their order. |
| SwigCasts.Link | bindings/perl/marisa-swig_wrap.cxx:445-448 | Putting a node in front leaves a doubly linked list. |
| SwigCasts.TypeInfo.Check | bindings/perl/marisa-swig_wrap.cxx:433-455 | Finds the first node with a name, or none exactly when there is none; that node becomes the head, before all the others in their order, in a list that stays doubly linked. |
| SwigCasts.TypeInfo.Push | bindings/perl/marisa-swig_wrap.cxx:5241-5245 | Adding an unused node makes it the head of a well-formed list. |
| SwigCasts.TouchKeepsLookup | bindings/perl/marisa-swig_wrap.cxx:433-455 | A lookup changes the result of no other lookup. |
| SwigCasts.HistoryKeepsLookup | bindings/perl/marisa-swig_wrap.cxx:433-455 | After any history of lookups every name finds the node that it found first, in a list of the same nodes. |
| SwigCasts.FindsToFront | bindings/perl/marisa-swig_wrap.cxx:433-455 | Moving the first node from a name to the front changes what no name finds. |
| SwigModules.CompareEqual | bindings/perl/marisa-swig_wrap.cxx:583-584 | Comparison gives 0 exactly for equal names. |
| SwigModules.CompareTransitive | bindings/perl/marisa-swig_wrap.cxx:583-594 | The order of names is transitive, so neighbours in order put the whole table in order. |
| SwigModules.CompareIsLexicographic | bindings/perl/marisa-swig_wrap.cxx:583-594 | The order of names is the lexicographic order of their bytes. |
| SwigModules.ModuleInfo.InOrder | bindings/perl/marisa-swig_wrap.cxx:583-594 | In a table whose neighbours are in order every entry is before all later ones. |
| SwigModules.ModuleInfo.Search | bindings/perl/marisa-swig_wrap.cxx:575-599 | Binary search ends, never goes below index 0, and finds a name exactly when the module knows it. |
| SwigModules.ArcNext | bindings/perl/marisa-swig_wrap.cxx:600-602 | Following `next` in a ring from one module to another leads through the modules between them, and meets the end only behind the last of them. |
| SwigModules.ArcOnce | bindings/perl/marisa-swig_wrap.cxx:600-602 | On that way each module is met once, and every module of the ring when start and end are the same. |
| SwigModules.MangledTypeQuery | bindings/perl/marisa-swig_wrap.cxx:569-603 | In any ring of modules with full tables the search from one module to another ends, and answers the type of the first module on the way that knows the name, or null exactly when none does. |
| SwigRuntime.Interpreter.constructor | bindings/perl/marisa-swig_wrap.cxx:4966-5008 | The generated structures as they are laid out, with nothing loaded, satisfy the invariant. |
| SwigRuntime.Interpreter.Enter | bindings/perl/marisa-swig_wrap.cxx:5136-5166 | A new module goes into the ring behind the head, with the head's `next` as its own, and the ring stays one cycle; a module that is there already changes nothing. |
| SwigRuntime.InsertedOnce | bindings/perl/marisa-swig_wrap.cxx:5146-5166 | After any sequence of initialisations the ring holds each of the modules once and keeps its head. |
| SwigRuntime.Interpreter.MeetsOthers | bindings/perl/marisa-swig_wrap.cxx:5188-5189 | The search from the module behind the new one up to the new one meets every other loaded module and not the new one. |
| SwigRuntime.Interpreter.FindLoaded | bindings/perl/marisa-swig_wrap.cxx:5188-5190 | A lookup while a table is being filled searches only the full tables and gives the type that was in use for the name before the module came, or null. |
| SwigRuntime.Interpreter.CheckCast | bindings/perl/marisa-swig_wrap.cxx:5228-5233 | The lookup on one type moves the node that it finds to the front, keeps the lists of all types well formed, and changes what no name finds. |
| SwigRuntime.Interpreter.AddCast | bindings/perl/marisa-swig_wrap.cxx:5208-5248 | In the three cases of the code the list, what lookups find on it, and the type that the cast refers to are exactly the new ones. |
| SwigRuntime.Interpreter.AddCastAt | bindings/perl/marisa-swig_wrap.cxx:5208-5248 | A cast of the new module goes to the list of its type exactly when the module brings the type, no loaded type has its name, or the list has no such cast; on a type that the module brings it then refers to the loaded type. |
| SwigRuntime.Interpreter.AddCasts | bindings/perl/marisa-swig_wrap.cxx:5206-5248 | A whole row is offered in order: what lookups find and what the casts refer to is what offering one after the other gives, and all lists stay well formed. |
| SwigRuntime.Interpreter.ChooseType | bindings/perl/marisa-swig_wrap.cxx:5179-5204 | The type of a table entry is the one that was in use for its name before the module came, if there is one, and otherwise the generated one. |
| SwigRuntime.Interpreter.FillEntry | bindings/perl/marisa-swig_wrap.cxx:5178-5251 | One turn of the loop appends the type in use to the table, hands over client data, offers it the casts of the row, and keeps the invariant of the half filled table. |
| SwigRuntime.LoadedFinds | bindings/perl/marisa-swig_wrap.cxx:5220-5248 | When a module is loaded, a lookup on a type of another module finds the same node as before exactly when it is for a type that was loaded before, or the module has no such cast for it. |
| SwigRuntime.LoadedRefers | bindings/perl/marisa-swig_wrap.cxx:5219-5227 | A cast of the module refers to the loaded type of its name exactly when the module brings the type that it is a cast to, and otherwise to the type that it was generated with. |
| SwigRuntime.Interpreter.InitializeModule | bindings/perl/marisa-swig_wrap.cxx:5130-5252 | Keeps the invariant, places the module in the ring, and changes nothing when the module was loaded before. Otherwise its table holds the loaded type of each name or else its own, casts on its own types refer to the loaded types, lookups on loaded types change only for names that were not loaded, and client data goes to the types in use. |
| SwigRuntime.Interpreter.InitializeAll | bindings/perl/marisa-swig_wrap.cxx:5130-5252 | Any sequence of first and repeated initialisations keeps the invariant, gives the ring that inserting the modules one by one gives, and has the types in use and the client data that loading the types of the new modules in order gives. |
| SwigRuntime.Interpreter.TypesAgree | bindings/perl/marisa-swig_wrap.cxx:5187-5204 | In every reachable state two loaded modules that know a name use the same type object for it. |
| SwigRuntime.Interpreter.TablesInOrder | bindings/perl/marisa-swig_wrap.cxx:5249-5250 | In every reachable state the table of a loaded module lists the generated names in their sorted order. |
| SwigRuntime.Interpreter.DeclaredCastIsFound | bindings/perl/marisa-swig_wrap.cxx:5206-5248 | In every reachable state each cast that a loaded module declares is found by name on the type in use. |
| SwigRuntime.Interpreter.FoundIsRecorded | bindings/perl/marisa-swig_wrap.cxx:433-455 | In every reachable state a lookup finds exactly the node that is recorded for the name. |
| SwigRuntime.Interpreter.FoundExactlyIfDeclared | bindings/perl/marisa-swig_wrap.cxx:5206-5248 | In every reachable state a lookup on a type finds a cast exactly when a loaded module declares one for a name that the type is in use for. |
| SwigRuntime.Interpreter.QueryFrom | bindings/perl/marisa-swig_wrap.cxx:569-603 | In every reachable state the search between any two loaded modules gives the type in use, or null exactly when no module on the way knows the name. |
| SwigRuntime.Interpreter.Query | bindings/perl/marisa-swig_wrap.cxx:1525-1525 | A wrapper's query from its own module around the whole ring gives the type in use, or null exactly when the name is not known. |
| SwigRuntime.Interpreter.LookUpCast | bindings/perl/marisa-swig_wrap.cxx:433-455 | A wrapper's lookup keeps the invariant of the whole interpreter, finds the recorded node and moves it to the front, and leaves the list alone when there is none. |
| SwigRuntime.KnownStays | bindings/perl/marisa-swig_wrap.cxx:5187-5204 | Loading types, of one module or of a sequence of them, changes the type in use for no name that was known, and makes their own names known. |
| SwigRuntime.FirstLoadedIsUsed | bindings/perl/marisa-swig_wrap.cxx:5187-5204 | The type in use for a name is the first one that was loaded under it, by whichever module. |
| SwigRuntime.ClientDataMoves | bindings/perl/marisa-swig_wrap.cxx:5196-5201 | After loading, a type in use has the client data of the last other type of its name that brought some, or its own if none did; types that are not in use keep theirs. |
| SwigMarking.TypeClientData | bindings/perl/marisa-swig_wrap.cxx:539-554 | The recursion ends and sets the client data of the type and of exactly the types that it reaches by casts without conversion through types that had none. Every type behind a cast without conversion of a marked type has client data afterwards, every other marked type is behind such a cast and had none, and all others keep theirs. |
| SwigMarking.ClosedIsReached | bindings/perl/marisa-swig_wrap.cxx:545-553 | A set of reached types that holds the unset successors of its members is exactly what is reached. |
| SwigRuns.ReachableGraph | bindings/perl/marisa-swig_wrap.cxx:5503-5507 | In every reachable state of an interpreter the cast lists form the graph that the marking needs, so it may start at any type. |
| SwigRuns.GiveClientData | bindings/perl/marisa-swig_wrap.cxx:5503-5507 | In every reachable state client data that is given to a type spreads to exactly the types reached through unset ones, along all casts without conversion in the lists, and the interpreter keeps its invariant. |
| SwigRuns.Act | bindings/perl/marisa-swig_wrap.cxx:5130-5252 | Loading a module, looking up a cast, querying a type and giving client data each keep the invariant, and answer exactly what the loaded modules determine. |
| SwigRuns.Perform | bindings/perl/marisa-swig_wrap.cxx:433-603 | In any sequence of those actions every answer, down to the node that a lookup finds, depends only on which modules were loaded before it and in which order; types in use, and nodes found on them for types that are loaded, stay the same for ever. |
| SwigHex.PackData | bindings/perl/marisa-swig_wrap.cxx:643-654 | Writes two digits a byte from a place on and nothing else. |
| SwigHex.UnpackData | bindings/perl/marisa-swig_wrap.cxx:659-682 | Reads bytes up to the first pair that is not two digits, never beyond the terminator, and succeeds exactly when all pairs are digits. |
| SwigHex.UnpackHex | bindings/perl/marisa-swig_wrap.cxx:643-682 | Unpacking packed bytes gives the bytes and the text behind them. |
| SwigHex.HexUnpack | bindings/perl/marisa-swig_wrap.cxx:659-682 | A text unpacks exactly when it starts with enough of the digits '0' to '9' and 'a' to 'f', and packing the result gives back the text. |
| SwigHex.DecodeEndsAt | bindings/perl/marisa-swig_wrap.cxx:664-678 | Reading stops no earlier than at a pair that is missing or not two digits. |
| SwigHex.HexKeepsOrder | bindings/perl/marisa-swig_wrap.cxx:644-653 | Texts of packed bytes are ordered as the bytes are, which with the range of the digits leaves one alphabet, high digit first. |
| SwigHex.TwoBytes | bindings/perl/marisa-swig_wrap.cxx:645-650 | An instance: the bytes 0x0F and 0xAB are packed as "0fab". |
| SwigHex.PackVoidPtr | bindings/perl/marisa-swig_wrap.cxx:687-696 | Succeeds exactly when the packed text and its terminator fit, and never writes beyond the given size. |
| SwigHex.PackDataName | bindings/perl/marisa-swig_wrap.cxx:711-724 | Succeeds exactly when the packed text and its terminator fit, never writes beyond the given size, and writes nothing when it fails. |
| SwigHex.UnpackDataName | bindings/perl/marisa-swig_wrap.cxx:726-737 | Gives the bytes and name of a packed text, zeros and the default name for "NULL", and fails for any other text. |
| SwigHex.PackedRoundTrip | bindings/perl/marisa-swig_wrap.cxx:711-737 | Unpacking what was packed gives back the bytes and the name. |
| SwigHex.UnpackedRoundTrip | bindings/perl/marisa-swig_wrap.cxx:698-737 | Packing what was unpacked gives back the text exactly when the text was not "NULL". |
| AgentBuffer.Agent.constructor | bindings/marisa-swig.cxx:83-85 | A new agent has no buffer and satisfies the invariant. |
| AgentBuffer.Agent.GrownSize | bindings/marisa-swig.cxx:94-101 | The new size holds the query, doubling never exceeds `size_t`, and below half the range it is the least power of two that is large enough. |
| AgentBuffer.Agent.SetQuery | bindings/marisa-swig.cxx:92-109 | The wrapped agent is always left with the present buffer, of which the first bytes are the query; a buffer that is large enough is kept; the size stays 0, a power of two or the largest size, and all buffers together stay within twice the last one. |
| AgentBuffer.Agent.AmortizedBound | bindings/marisa-swig.cxx:92-109 | When all queries are below half the range, all buffers together are less than twice the last one and less than four times the longest query. |
| AgentBuffer.AtMostHalf | bindings/marisa-swig.cxx:96-101 | A power of two that fits a `size_t` is at most half its range, so a jump to the largest size keeps the bound. |

## Left out

- The trie engine, and the binding methods that only hand calls on to it.
- The wrapper functions for single methods, and the conversion of Perl and Python objects with their ownership.
- `SWIG_TypeNameComp` and the search by human readable names: only mangled names are searched.
- `SWIG_TypeCheckStruct`: the list operation is that of `SWIG_TypeCheck`, with types compared instead of names.
- `SWIG_PropagateClientData`: repeats the marking for every type of a module.
- Several interpreters: the path of `SWIG_InitializeModule` that links a module again without filling its table.
- The null entries that end the type tables and rows of casts: tables and rows are sequences, so a table grows by an entry where the original writes into a fixed array.
- The text of warnings, other output, files, clocks, floating point conversions and the `switch` bodies of the tools.
- Memory exhaustion, and a query that lies in the agent's own buffer.
- SwigHex.UnpackDataName: `SWIG_UnpackVoidPtr` is this operation with eight bytes and is not modelled apart.
