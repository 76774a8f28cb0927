# Net-mapper: verified model of MIB resolution, MIB parsing and BER

This project models the SNMP half of net-mapper in Dafny and proves what its code promises. `dafny
verify dfyconfig.toml` checks all of it in a minute or two. There are four parts.

**MIB names and the OID index** (`Decimals`, `MibResolve`, `MibTexts`, `MibCompile`, `MibPasses`,
`MibLevels`, `MibCases`, `MibDatabase`, `OidBranch`). Objects, modules and the database are classes on
the heap. Compilation is the memoised recursion of the source, which looks every name up in the scope of
the module whose compilation is under way, not of the module that wrote it. `Eval` is that computation
as a function of a memo; `Denote` is the meaning in the scope of the writer, in closed form: the OID of
the last name among the elements, followed by the numbers after it; `TextsDenote` says the same of the
texts that an object is made from. Go visits a map in any order: `Compile`, `Visit`, `Pass` and `After`
are compilation as functions of the orders that happen, the methods on the heap are proved equal to
them, and the lemmas quantify over all orders. The trie that is filled afterwards is a finite map
queried by longest prefix.

**Tokens, readers and the macro interpreter** (`Lexer`, `Lexemes`, `Scanner`, `Joining`, `Readers`,
`ScannerReader`, `Blocks`, `Grammar`, `Notation`, `Parsing`, `Collecting`, `Interpreter`, `Peg`,
`PegRefinement`, `Enums`). The splitters do not depend on buffering and read written tokens back, the
scanner's lazy queue refines eager joining of words, which has one result only, and stacks of
projections behave as one reader. The interpreter of macro grammars works on those readers and on a
shared table of recursion counts; it is proved equal to the pure function `Parse`, which in turn is
compared with `Peg.Read`, an ordered-choice grammar with no counts at all, whose readings record how
deeply each definition was nested. `Collecting` says what a sequence gives in terms of its parts alone,
`Notation` what the built-in types look like.

**BER** (`Bytes`, `BerValue`, `BerInteger`, `BerOid`, `BerReflect`, `BerPacker`, `BerWire`): framing,
integers and object identifiers of ITU-T X.690 (sections 8.1, 8.3 and 8.19), and the packing of slices
and structs directed by their types; `BerWire` gives the bytes in numbers. Go's 64-bit arithmetic is
written out (`Wrap`, `ShiftLeft`, `ShiftRight`), and a panic is an outcome of its own or `None`.

**The static source** (`StaticRoot`): in-place increment of an address and enumeration of a network.

A method with a loop is tied by its `ensures` to a function; lemmas say what that function means.

## Where the code does less than it seems to

- An object whose OID is empty is never memoised, so that acyclic definitions and imports, names that all
  resolve and no shadowing do not suffice for compilation: `MibResolve.EmptyOidNeverCompiles` gives the
  modules. The exact condition for a single pass in the order of imports is that every module sees what
  it needs (`MibLevels.OnePassIff`; for one fresh module above finished ones
  `MibResolve.ModuleCompilesIff`). Several passes can do more, because a later module may memoise what an
  earlier one does not see: `MibCases.OnePassIsNotEnough`, `MibCases.LaterPassesDoMore`.
- Compilation gives up after a pass that compiles no module, although that pass may have memoised what a
  module was waiting for: `MibCases.GivesUpTooSoon`. Whether it succeeds can depend on the order of a map:
  `MibCases.OtherOrderCompiles`. Giving up is right exactly when no pending module evaluates on the memo that
  the last pass leaves (`MibPasses.RightToGiveUpIff`), and final when that memo is settled besides
  (`MibPasses.SettledIsFinal`); what always holds is that none of them evaluated on the memo that the last
  pass began with (`MibPasses.GivesUpStuck`).
- A definition that the recursion limit stops keeps its count: `PegRefinement.LeftRecursionLeaks`. The limit
  stops nothing exactly when the reading without limit ends and nests no definition deeper than there is room:
  `PegRefinement.NeverStoppedIff`; the contract of `Parsing.Parse` gives the accounting for all grammars.
- Framing announces 256 bytes of content as none, and panics above 1280: `BerValue.FrameRoundTrip`.
- A length of 8 or more bytes can make unframing panic: `BerValue.PanicsIff`.
- GetInt checks the bytes at the back of a number that is too long, not those at the front, and can panic:
  `BerInteger.ReadRightIff`, `BerInteger.TooLongIsMissed`.
- On a list, a block whose two brackets are the same token panics: `Readers.ReadListBlock`.
- An IPv6 network on both sides of the IPv4-mapped addresses is enumerated up to the first of those only:
  `StaticRoot.MissesIff`.
- The second call of Discover starts its list with blank hosts: `StaticRoot.StaticRoot.Discover`.

## Model

| member | source | states |
|---|---|---|
| Decimals.AtoiIff | pkg/snmp/mibdb/object.go:81-85 | a text is read as a number exactly when it is that number in decimal, behind any zeros and an optional sign |
| Decimals.PrintedInDecimal | pkg/snmp/mibdb/object.go:81-85 | printing is in decimal digits without leading zeros |
| MibResolve.Object.constructor | pkg/snmp/mibdb/object.go:13-18 | a new object has no OID, and its elements say what its texts say |
| MibResolve.ClassifyIff | pkg/snmp/mibdb/object.go:79-91 | a text says a number when it stands for one, `iso`, or else the name that it is, and only one of these |
| MibTexts.AllEndWith | pkg/snmp/mibdb/object.go:79-106 | the texts of any definition are some texts, the last of which is no number, and numbers behind them |
| MibTexts.TextsDenote | pkg/snmp/mibdb/object.go:79-106 | an object made from texts denotes the OID of the object that the last text that is no number names, or 1 for `iso`, or nothing, followed by the numbers behind it |
| MibResolve.LookupOrder | pkg/snmp/mibdb/module.go:49-81 | own definitions win, then those of the module imported from, whose absence hides the built-in definition, then the built-in ones |
| MibResolve.EvalStable | pkg/snmp/mibdb/object.go:76-78 | filling in memoised OIDs changes neither what can be resolved from a module nor to what |
| MibResolve.ExtendsTransitive | pkg/snmp/mibdb/object.go:70-108 | memo updates of one compilation compose, however they nest |
| MibResolve.LookupFindsOwned | pkg/snmp/mibdb/module.go:49-81 | a name that resolves leads to an object that the module found for it defines |
| MibResolve.LastName | pkg/snmp/mibdb/object.go:79-87 | the last element that is not a number is where the OID starts over |
| MibResolve.DenoteOneMore | pkg/snmp/mibdb/object.go:79-106 | the closed form grows element by element as the loop does: a number is appended, anything else replaces what was there |
| MibResolve.EvalIsDenotation | pkg/snmp/mibdb/object.go:91-104 | resolution in the importer's scope can fail, but never gives anything but the lexical meaning |
| MibResolve.AcyclicIfResolves | pkg/snmp/mibdb/object.go:91-99 | without shadowing, names of lower rank in their own module are of lower rank seen from any module |
| MibResolve.ModuleCompilesIff | pkg/snmp/mibdb/module.go:92-106 | a module with nothing memoised, above finished ones, compiles exactly when it sees all the names that it needs |
| MibResolve.NonemptyIsReachable | pkg/snmp/mibdb/object.go:76-106 | element lists that are not empty are enough for that |
| MibResolve.ExtendsKeepsSound | pkg/snmp/mibdb/object.go:76-107 | after every success or failure each memoised OID is the meaning of its object, and finished modules stay finished |
| MibResolve.EvalGrows | pkg/snmp/mibdb/object.go:76-78 | whatever can be resolved can still be resolved when any module has memoised more |
| MibResolve.ModuleStepHolds | pkg/snmp/mibdb/module.go:92-106 | compiling a module keeps the memo right; success finishes the module; it succeeds once the modules below are finished |
| MibResolve.PassGoesOn | pkg/snmp/mibdb/database.go:228-239 | the effects of compiling modules one after the other add up to that of a pass |
| MibResolve.PassProgress | pkg/snmp/mibdb/database.go:220-242 | all modules that are not pending stay finished; a pass over a compilable database finishes at least one more; a pass that finishes none began with a memo on which none of the pending modules evaluated |
| MibResolve.EmptyOidNeverCompiles | pkg/snmp/mibdb/object.go:76-78 | three modules that meet all lexical hypotheses and never compile, because an empty OID is not memoised |
| MibCompile.CompileIsEval | pkg/snmp/mibdb/object.go:70-108 | compiling an object, with all that it leaves behind on success or failure, gives the OID that the memo from before evaluates to, and memoises only what that memo evaluates to |
| MibCompile.VisitIs | pkg/snmp/mibdb/module.go:94-104 | in any order, up to the first failure, whether the definitions of a module compile is decided by the memo from before |
| MibCompile.AttemptIff | pkg/snmp/mibdb/module.go:92-106 | in every order of its keys a module compiles exactly when all of its objects evaluate and its types are known |
| MibPasses.PassIsStep | pkg/snmp/mibdb/database.go:228-239 | in every order of modules and keys a pass keeps the memo right, finished modules finished, and fails only at modules that failed before it |
| MibPasses.RunIsRight | pkg/snmp/mibdb/database.go:220-242 | in every order memoised OIDs never change, all modules that are not pending are finished, and in a compilable database each pass compiles some module |
| MibPasses.GivesUpStuck | pkg/snmp/mibdb/database.go:220-242 | compilation gives up only after a pass that began with a memo on which none of its modules evaluated, and the memo has only grown since |
| MibPasses.RightToGiveUpIff | pkg/snmp/mibdb/database.go:220-247 | none of the pending modules evaluates on the memo after the last pass exactly when none of them would compile next in any order |
| MibPasses.AnotherPassCompiles | pkg/snmp/mibdb/database.go:228-239 | a pending module that evaluates compiles in the next pass, whatever the order |
| MibPasses.SettledIsFinal | pkg/snmp/mibdb/database.go:220-242 | when besides nothing that they see could still be memoised, no pass in any order compiles or memoises anything |
| MibLevels.LevelPassIff | pkg/snmp/mibdb/database.go:228-239 | for modules in the order of imports and a fresh memo, a pass compiles all of them exactly when each sees what it needs |
| MibLevels.OnePassIff | pkg/snmp/mibdb/database.go:220-247 | one pass in the order of imports compiles the whole database exactly when it is compilable |
| MibCases.GivesUpTooSoon | pkg/snmp/mibdb/database.go:220-242 | two modules and an order of visiting in which compilation gives up while one of them evaluates |
| MibCases.OtherOrderCompiles | pkg/snmp/mibdb/database.go:215-217 | another order of the same modules compiles everything in two passes |
| MibCases.OnePassIsNotEnough | pkg/snmp/mibdb/database.go:228-239 | four modules that no single pass in the order of imports compiles, whatever the orders of keys |
| MibCases.LaterPassesDoMore | pkg/snmp/mibdb/database.go:220-242 | the same four modules compile in two passes |
| MibDatabase.Database.constructor | pkg/snmp/mibdb/database.go:27-52 | a new database knows the module <builtin> with iso, the seven simple types and the two macros by name, and an empty index |
| MibDatabase.Module.LookupName | pkg/snmp/mibdb/module.go:49-81 | over the tables: own definitions, then those of the module imported from, then the built-in ones; an unread module gives nothing even where the built-in module has the name |
| MibDatabase.CompileReference | pkg/snmp/mibdb/object.go:91-104 | a name gives the OID and leaves the memo that compiling what it leads to gives and leaves |
| MibDatabase.CompileObject | pkg/snmp/mibdb/object.go:70-108 | result and memo are those of Compile in every heap; nothing is left behind in an object that fails |
| MibDatabase.CompileElement | pkg/snmp/mibdb/object.go:79-106 | one element appends its number or starts over with the OID of its name, and leaves the memo of that step |
| MibDatabase.CompileDefinition | pkg/snmp/mibdb/module.go:94-103 | an object compiles as Compile says; a type reference compiles when it is a simple type |
| MibDatabase.CompileModule | pkg/snmp/mibdb/module.go:92-106 | the definitions are compiled one after the other in some order, up to the first failure, with the memo that this order leaves; success does not depend on the order |
| MibDatabase.CompileNext | pkg/snmp/mibdb/database.go:226-240 | one pass more takes the run of passes one step further |
| MibDatabase.CompilePass | pkg/snmp/mibdb/database.go:226-240 | each module is compiled once, in some order of its keys; those that fail are kept, with the memo that these orders leave |
| MibDatabase.CompileInPasses | pkg/snmp/mibdb/database.go:220-247 | the loop makes passes until no module is left or a pass compiles none, and fails in the second case |
| MibDatabase.CompileValues | pkg/snmp/mibdb/database.go:207-248 | ends with the state of a run of passes over all modules; whatever is memoised is right; on success every object has its meaning; a compilable database succeeds within as many passes as it has modules; on failure the last pass began with a memo on which no pending module evaluated |
| MibDatabase.IndexDefinition | pkg/snmp/mibdb/database.go:300-306 | an object is registered under its OID, anything else only by name |
| MibDatabase.IndexesOneMore | pkg/snmp/mibdb/database.go:300-306 | registering one more object keeps the index exact, also when it replaces an entry |
| MibDatabase.IndexModule | pkg/snmp/mibdb/database.go:298-307 | in any order all objects of a module are registered and no others |
| MibDatabase.IndexDefinitions | pkg/snmp/mibdb/database.go:296-308 | in any order of modules every OID of an object leads to an object that has it, and every other path leads where it did before |
| MibDatabase.CreateIndex | pkg/snmp/mibdb/database.go:291-311 | the objects are added to the index when compilation succeeds, and it is untouched when compilation fails, in the first call and in any later one; on success each object has its lexical OID |
| MibDatabase.IndexIsExact | pkg/snmp/mibdb/database.go:296-308 | with distinct OIDs what the index leads to does not depend on map order |
| MibDatabase.FindsNearest | pkg/snmp/mibdb/database.go:314-316 | a query below an object's OID finds an entry at least as close, and the two parts of the answer make up the query |
| MibDatabase.FindsItself | pkg/snmp/mibdb/database.go:314-316 | with distinct OIDs the OID of an object finds that object with nothing left |
| OidIndex.OidBranch.AddDefinition | pkg/snmp/mibdb/oidbranch.go:54-70 | registering is map update, and keeps a tree with parent links |
| OidIndex.OidBranch.LinkChild | pkg/snmp/mibdb/oidbranch.go:59-68 | a new branch registers nothing and points to its holder |
| OidIndex.OidBranch.FindOID | pkg/snmp/mibdb/oidbranch.go:38-52 | finds the branch of the longest registered prefix and the rest of the query, or the start and all of it |
| OidIndex.OidBranch.ChildValues | pkg/snmp/mibdb/oidbranch.go:21-32 | the definitions of all direct children that have one, and no others, by increasing arc |
| OidIndex.SortedKeys | pkg/snmp/mibdb/oidbranch.go:23-24 | the keys of a map, each once, in increasing order |
| OidIndex.ListIsUnique | pkg/snmp/mibdb/oidbranch.go:23-24 | there is only one such list, so that the order of the map makes no difference |
| MibLexer.SplitStable | pkg/snmp/mibtoken/scanner.go:236-355 | what a splitter decides before the end of the input it decides the same on any longer buffer |
| MibLexer.SplitProgress | pkg/snmp/mibtoken/scanner.go:130-146 | a token takes at least one character, and at the end of the input the splitter does not ask for more |
| MibLexer.SplitIsSteady | pkg/snmp/mibtoken/scanner.go:130-146 | both hold on all parts of any text without carriage returns |
| MibLexer.PiecesTile | pkg/snmp/mibtoken/scanner.go:130-146 | the pieces that tokens are cut from tile the input up to its end or a character that starts no token |
| MibLexer.SplitData | pkg/snmp/mibtoken/scanner.go:130-146 | picks the splitter by the first character, and its loops decide as the pure splitter does |
| MibLexer.ScanRun | pkg/snmp/mibtoken/scanner.go:251-262 | the loop of the splitters for words, numbers, blanks and comments finds the end of the run |
| MibLexer.ScanString | pkg/snmp/mibtoken/scanner.go:283-306 | the loop of the string splitter finds the closing quote that is not escaped |
| MibLexer.Scan | pkg/snmp/mibtoken/scanner.go:110-146 | through a buffer that is filled in any portions, the tokens are those of the whole input |
| MibLexer.ScanText | pkg/snmp/mibtoken/scanner.go:130-146 | the tokens of a text without carriage returns do not depend on buffering |
| MibLexemes.WordIsOnePiece | pkg/snmp/mibtoken/scanner.go:250-263 | a letter with letters, digits, underscores, hyphens and dots behind it is one token, up to another character or the end |
| MibLexemes.NumberIsOnePiece | pkg/snmp/mibtoken/scanner.go:265-281 | digits, with or without a minus in front, are one token |
| MibLexemes.BlanksAreOnePiece | pkg/snmp/mibtoken/scanner.go:236-248 | blanks are one token, with the first of them as its text unless they end the input |
| MibLexemes.CommentIsOnePiece | pkg/snmp/mibtoken/scanner.go:316-328 | two hyphens and the rest of the line are one token |
| MibLexemes.StringIsOnePiece | pkg/snmp/mibtoken/scanner.go:283-306 | a string is one token up to its first quote that is not escaped |
| MibLexemes.UnterminatedString | pkg/snmp/mibtoken/scanner.go:304-309 | a string without its closing quote asks for more text, and is an error at the end |
| MibLexemes.SymbolIsOnePiece | pkg/snmp/mibtoken/scanner.go:312-346 | each of the brackets, comma, semicolon, dot and bar is a token |
| MibLexemes.ColonAndHyphen | pkg/snmp/mibtoken/scanner.go:314-346 | a colon and a hyphen that start nothing longer are tokens |
| MibLexemes.LineEndPair | pkg/snmp/mibtoken/scanner.go:348-355 | two different characters that end a line end it together |
| MibLexemes.StartsNoToken | pkg/snmp/mibtoken/scanner.go:130-146 | any other first character is an error |
| MibLexemes.WrittenIsRead | pkg/snmp/mibtoken/scanner.go:130-206 | tokens written with enough blanks, line ends and comments between them to tell them apart are read back, token by token |
| Tokens.KindIff | pkg/snmp/mibtoken/token.go:61-93 | the kind of a token, by its first characters |
| MibScanner.JoinKeepsFront | pkg/snmp/mibtoken/scanner.go:183-194 | joining changes no token but the last |
| MibScanner.JoinDropsFirst | pkg/snmp/mibtoken/scanner.go:200-206 | a token with another behind it can be taken away before joining goes on |
| MibJoining.PairsIff | pkg/snmp/mibtoken/scanner.go:17-20 | the words that the scanner joins are six pairs |
| MibJoining.TokensIff | pkg/snmp/mibtoken/scanner.go:172-194 | the tokens of some texts are exactly those that come apart into these texts and leave no pair side by side |
| MibJoining.KeptIsFilter | pkg/snmp/mibtoken/scanner.go:179-181 | just the texts of the kinds to be skipped are left out, the others keep their order |
| MibScanner.Scanner.constructor | pkg/snmp/mibtoken/scanner.go:110-128 | a new scanner has all joined tokens of its input to come |
| MibScanner.Scanner.Take | pkg/snmp/mibtoken/scanner.go:172-194 | one more text is skipped, joined to the last token or appended, and what is to come stays the same |
| MibScanner.Scanner.RefillQueue | pkg/snmp/mibtoken/scanner.go:168-198 | the queue gets as long as asked for, and at least 16, if the input lasts |
| MibScanner.Scanner.LookAhead | pkg/snmp/mibtoken/scanner.go:207-213 | gives the nth token of eager joining, and no token that was ever given changes later |
| MibScanner.Scanner.Pop | pkg/snmp/mibtoken/scanner.go:200-206 | gives and takes the first token of eager joining |
| MibScanner.Scanner.IsEOF | pkg/snmp/mibtoken/scanner.go:413-416 | says exactly whether no token is to come |
| Readers.List.RemoveIndex | pkg/snmp/mibtoken/tokenlist.go:164-173 | takes one token out of the list, or fails behind its end |
| Readers.List.AppendTokens | pkg/snmp/mibtoken/tokenlist.go:109-111 | appends tokens at the end |
| Readers.LookAhead | pkg/snmp/mibtoken/projection.go:24-27 | through any number of projections, the nth of the remaining tokens |
| Readers.NewProjection | pkg/snmp/mibtoken/projection.go:9-11 | a new projection sees what its reader has to come, and changes none of the views below |
| Readers.Pop | pkg/snmp/mibtoken/projection.go:15-22 | takes a token from the top reader only; every reader below still has all of its tokens |
| Readers.Commit | pkg/snmp/mibtoken/projection.go:45-50 | drops from the reader below what has been read ahead, keeps the projection's own view and everything further down |
| Readers.ReadBlock | pkg/snmp/mibtoken/reader.go:49-75 | reads the block that BlockOf says, from any stack of readers, and touches only the top one |
| Readers.ReadListBlock | pkg/snmp/mibtoken/tokenlist.go:48-76 | the method of lists reads the same block, and panics exactly when the list starts with a token that is both brackets |
| ScannerReader.LookAhead | pkg/snmp/mibtoken/scanner.go:207-213 | a list of the remaining tokens and the scanner give the same nth token, and go on standing for each other |
| ScannerReader.Pop | pkg/snmp/mibtoken/scanner.go:200-206 | both give and take the same first token |
| ScannerReader.IsEOF | pkg/snmp/mibtoken/scanner.go:413-416 | both end at the same time |
| Readers.ReadUntil | pkg/snmp/mibtoken/reader.go:16-34 | reads up to the first end token and takes it |
| Blocks.BlockIsBalanced | pkg/snmp/mibtoken/reader.go:49-75 | a block is read exactly from an opening bracket, a balanced block, its closing bracket and a rest |
| Blocks.BlockEndsAtFirstReturn | pkg/snmp/mibtoken/reader.go:59-74 | reading stops at the first bracket that brings the depth back to 0, and no earlier |
| Blocks.NoBlock | pkg/snmp/mibtoken/reader.go:49-75 | exactly when no block can be read |
| Blocks.UntilFindsFirst | pkg/snmp/mibtoken/reader.go:16-34 | what is read is everything before the first end token |
| Grammar.FindsInnermost | pkg/snmp/mibdb/definition.go:70-87 | a name means what the innermost scope that has it says, and nothing exactly when no scope has it |
| Grammar.BudgetEnter | pkg/snmp/mibdb/definition.go:93-107 | entering a definition below its limit uses up a finite budget, which is why reading ends |
| Grammar.BuiltInLeaves | pkg/snmp/mibdb/type.go:120-174 | built-in types are read off the front |
| Parsing.Parse | pkg/snmp/mibdb/pattern.go:85-135 | ends on every finite grammar; every count grows by the number of times that its definition was stopped, and by nothing else |
| Notation.ExpectedIff | pkg/snmp/mibdb/value.go:138-153 | an expected token is read from itself, and MAX-ACCESS also from ACCESS |
| Notation.HundredDeep | pkg/snmp/mibdb/type.go:178-182 | a definition that is being read 100 times cannot be read once more, and one that is read 99 times can |
| Notation.OwnNamesFirst | pkg/snmp/mibdb/definition.go:70-87 | a name in the notation of a macro means what the macro itself defines |
| Notation.OidIff | pkg/snmp/mibdb/object.go:22-60 | an OID value is a token other than a brace, or elements in braces, where the first token in parentheses counts instead of the name before them |
| Notation.ConstantIff | pkg/snmp/mibdb/value.go:95-118 | a constant is a token other than a brace, or anything balanced in braces |
| Notation.TextIff | pkg/snmp/mibdb/type.go:124-136 | a text is a token that starts with a quote |
| Notation.EmptyReadsNothing | pkg/snmp/mibdb/type.go:161-162 | the type empty is read from nothing, and takes nothing |
| Notation.BuiltInIff | pkg/snmp/mibdb/type.go:120-163 | the six names that are read without looking them up |
| Notation.TypeIsRead | pkg/snmp/mibdb/type.go:48-102 | a tagging, SEQUENCE OF or not, a name and a constraint in any of the three brackets are read as a type |
| Notation.OnlyTypesAreRead | pkg/snmp/mibdb/type.go:48-102 | nothing else is read as a type |
| Collecting.FinishCollects | pkg/snmp/mibdb/pattern.go:108-133 | plain values get the last keyword that has none yet, or else their index; composites all their fields; later entries replace earlier ones; a keyword alone is a text |
| Collecting.SequenceCollects | pkg/snmp/mibdb/pattern.go:85-135 | a sequence that is read gives what the values of its parts, read one after the other in its own scope, are collected to |
| Interpreter.RecursionCounts.Inc | pkg/snmp/mibdb/definition.go:93-99 | counts one more reading and gives the new count |
| Interpreter.RecursionCounts.Dec | pkg/snmp/mibdb/definition.go:101-107 | counts one reading less |
| Interpreter.ReadOidElements | pkg/snmp/mibdb/object.go:33-51 | each element is its text, or the number behind a name |
| Interpreter.ReadOidValue | pkg/snmp/mibdb/object.go:22-60 | reads an OID value as the pure function says |
| Interpreter.ReadConstantValue | pkg/snmp/mibdb/value.go:95-118 | reads a constant as the pure function says |
| Interpreter.ReadTypeRefValue | pkg/snmp/mibdb/type.go:48-102 | reads a type with its tagging and constraint as the pure function says |
| Interpreter.ReadBuiltInValue | pkg/snmp/mibdb/type.go:120-162 | picks the built-in type by its name |
| Interpreter.ReadValue | pkg/snmp/mibdb/value.go:138-153 | on any stack of readers the interpreter gives the outcome, the rest and the counts of Parse, and changes no reader below |
| Interpreter.ReadCounted | pkg/snmp/mibdb/pattern.go:89-93 | at the limit the count stays raised, otherwise it is lowered again |
| Interpreter.ReadSequence | pkg/snmp/mibdb/pattern.go:85-135 | takes the matched prefix from the reader when all parts match, and nothing otherwise |
| Interpreter.ReadAlternative | pkg/snmp/mibdb/pattern.go:217-222 | an alternative that fails takes nothing, whatever its parts have read |
| Interpreter.ReadChoice | pkg/snmp/mibdb/pattern.go:213-233 | takes what the first alternative that can be read has matched |
| Interpreter.ReadOne | pkg/snmp/mibdb/type.go:120-174 | reads a built-in type, or what the name stands for |
| Interpreter.ReadList | pkg/snmp/mibdb/type.go:190-220 | reads values separated by commas up to a closing brace or the end |
| PegRefinement.ParseIsPeg | pkg/snmp/mibdb/pattern.go:85-135 | the interpreter and the grammar without counts agree wherever the limit does not stop, and what is read is read off the front |
| PegRefinement.UnstoppedReadsTheGrammar | pkg/snmp/mibdb/type.go:176-221 | a reading that is not stopped is that of the grammar, and restores all counts |
| PegRefinement.NeverStoppedIff | pkg/snmp/mibdb/type.go:178-182 | the limit stops nothing exactly when the reading without limit ends and, for every definition, its count and the depth of its nesting stay within the limit |
| PegRefinement.FittingIsNeverStopped | pkg/snmp/mibdb/type.go:178-182 | what ends and nests within the room that is left is read as the grammar says, with all counts restored |
| PegRefinement.CountsDoNotMatter | pkg/snmp/mibdb/pattern.go:89-93 | two readings that are not stopped agree, whatever the counts were |
| PegRefinement.ReadsAPrefix | pkg/snmp/mibdb/pattern.go:129 | success or failure, what is taken is a prefix |
| PegRefinement.FailureTakesNothing | pkg/snmp/mibdb/pattern.go:97-106 | sequences, choices and expected tokens that fail leave all tokens |
| Peg.ChoiceTakesFirst | pkg/snmp/mibdb/pattern.go:216-224 | a choice reads what its first readable alternative reads, on the same tokens |
| Peg.SequenceThreads | pkg/snmp/mibdb/pattern.go:102-129 | a sequence is read only part by part, each part from where the one before has stopped |
| Peg.ThreadsAreRead | pkg/snmp/mibdb/pattern.go:102-129 | parts that can be read one after the other make a sequence that can be read |
| Peg.SequenceIsCollected | pkg/snmp/mibdb/pattern.go:102-133 | in the grammar without counts, too, a sequence gives what the values of its parts are collected to |
| Peg.ItemsAreSeparated | pkg/snmp/mibdb/type.go:190-220 | a list is read only value by value with a comma between each two, up to a closing brace or the end |
| Peg.SeparatedAreRead | pkg/snmp/mibdb/type.go:190-220 | values that can be read with commas between them make a list that can be read |
| Peg.CollectMore | pkg/snmp/mibdb/type.go:202-207 | a list has all values that are not empty, in order |
| Peg.ListIff | pkg/snmp/mibdb/type.go:190-221 | a list is read from a closing brace, which is left, or from separated values, and never from nothing |
| Peg.EndlessIsNoGrammar | pkg/snmp/mibdb/type.go:163-172 | a type defined as itself is read by no amount of nesting |
| PegRefinement.LeftRecursionLeaks | pkg/snmp/mibdb/type.go:178-182 | the limit ends its reading, and leaves its count one too high |
| Enums.CompileEnums | pkg/snmp/mibdb/type.go:232-265 | gives the enumeration of the constraint and leaves the constraint as it was |
| Enums.NumberIff | pkg/snmp/mibdb/type.go:248-257 | a number in parentheses is a decimal text without a plus sign |
| Enums.NameIff | pkg/snmp/mibdb/type.go:240-247 | a name starts with a letter or an underscore |
| Enums.ReadEntry | pkg/snmp/mibdb/type.go:238-263 | reads one entry and the comma that may follow |
| Enums.PrintedIsRead | pkg/snmp/mibdb/type.go:232-265 | every printed enumeration is read back, with or without commas |
| Enums.OnlyPrintedIsRead | pkg/snmp/mibdb/type.go:232-265 | nothing else is accepted |
| Enums.LastNameCounts | pkg/snmp/mibdb/type.go:258 | every number gets its last name, and no other number gets one |
| Enums.ListingIsRecovered | pkg/snmp/mibdb/type.go:232-265 | names with printed numbers are recovered |
| BerValue.Value.Marshal | pkg/asn1/asn1binary/value.go:14-40 | gives the frame of the value, or panics where the array for the length is too short |
| BerValue.Value.Unmarshal | pkg/asn1/asn1binary/value.go:42-70 | takes the frame at the front; a truncated frame changes the envelope only |
| BerValue.EncodeLength | pkg/asn1/asn1binary/value.go:31-34 | fills in the low bytes of the length, most significant first |
| BerValue.DecodeLength | pkg/asn1/asn1binary/value.go:61-64 | adds the bytes up to their big-endian number in 64-bit arithmetic |
| BerValue.FrameRoundTrip | pkg/asn1/asn1binary/value.go:14-70 | unframing gives back value and rest exactly for class 0 to 3, tag 0 to 63 and up to 1280 bytes other than 256 |
| BerWire.HeaderBits | pkg/asn1/asn1binary/value.go:16-48 | the class is in the two high bits of the first byte, the tag in the six low ones, both ways |
| BerWire.FrameLayout | pkg/asn1/asn1binary/value.go:18-39 | up to 127 bytes have one byte of length; more have 128 and the number of bytes of the length, one for each 256 bytes begun, up to five |
| BerValue.UnframeOfFrame | pkg/asn1/asn1binary/value.go:27-34 | what becomes of a value outside that domain as long as framing does not panic |
| BerValue.FramesAreSeparable | pkg/asn1/asn1binary/value.go:42-70 | frames one after the other can be told apart in only one way |
| BerValue.UnframesComplete | pkg/asn1/asn1binary/value.go:42-70 | with up to 7 bytes of length, data is unframed exactly when the frame is complete, into header, content and rest |
| BerValue.UnframeIsStable | pkg/asn1/asn1binary/value.go:42-70 | data behind a frame does not change it |
| BerValue.PanicsIff | pkg/asn1/asn1binary/value.go:61-69 | exactly when a long length makes slicing panic |
| BerInteger.Integer.SetInt | pkg/asn1/asn1go/integer.go:77-95 | gives the shortest two's complement form of any 64-bit number |
| BerInteger.Integer.GetInt | pkg/asn1/asn1go/integer.go:48-75 | reads as GetIntSpec says, through wrap-around and shifts |
| BerWire.SizeIsChecked | pkg/asn1/asn1go/integer.go:48-57 | sizes above 64 bits, or that are no whole bytes, are an error; no bytes are 0 |
| BerInteger.ShortestIsUnique | pkg/asn1/asn1go/integer.go:88-94 | a number has only one shortest form |
| BerInteger.ShortestLength | pkg/asn1/asn1go/integer.go:88-94 | the shortest form has at most k bytes exactly when the number fits 8k bits |
| BerInteger.ReadsSigned | pkg/asn1/asn1go/integer.go:58-74 | up to 8 bytes are read as the number that they stand for |
| BerInteger.FitsIffRepeatsSign | pkg/asn1/asn1go/integer.go:63-66 | a number fits k bytes exactly when the bytes in front of the last k repeat its sign |
| BerInteger.ReadRightIff | pkg/asn1/asn1go/integer.go:48-75 | GetInt gives the number if it fits and an error if not, exactly when there are at most k bytes, or front and back agree and the shift does not panic |
| BerInteger.TooLongIsMissed | pkg/asn1/asn1go/integer.go:63-66 | 256 is read as a number of 8 bits |
| BerOid.PackAsn1 | pkg/asn1/asn1go/oid.go:14-46 | gives the first byte and one group per element, or an error |
| BerWire.PackedOid | pkg/asn1/asn1go/oid.go:14-46 | the first byte is 40 times the first element plus the second; each later element is in base 128, high bit on all bytes but the last, no empty byte in front |
| BerWire.Enterprise311 | pkg/asn1/asn1go/oid.go:14-46 | 1.3.6.1.4.1.311 is 2B 06 01 04 01 82 37 |
| BerOid.PackElement | pkg/asn1/asn1go/oid.go:26-43 | the buffer of ten septets is never too short, and is written out as one group |
| BerOid.UnpackAsn1 | pkg/asn1/asn1go/oid.go:47-73 | gives the elements of the groups in 64-bit arithmetic, or an error |
| BerOid.OidRoundTrip | pkg/asn1/asn1go/oid.go:14-73 | packing and unpacking gives the same exactly for two or more elements, the second in 0 to 39, the first byte in range and no negative element |
| BerOid.BytesRoundTrip | pkg/asn1/asn1go/oid.go:14-73 | unpacking and packing gives the same exactly for complete groups of up to nine bytes that do not start with an empty septet |
| BerOid.CanonicalIsPacked | pkg/asn1/asn1go/oid.go:25-45 | such bytes are packed from what they are unpacked to |
| BerOid.PackedIsCanonical | pkg/asn1/asn1go/oid.go:25-45 | what is packed has such groups |
| BerOid.LessThan | pkg/asn1/asn1go/oid.go:111-119 | compares element by element, then by length |
| BerOid.LessIff | pkg/asn1/asn1go/oid.go:111-119 | less is smaller at the first difference, or ended there |
| BerOid.LessIsTotal | pkg/asn1/asn1go/oid.go:111-119 | of two different identifiers exactly one is less, and none is less than itself |
| BerOid.LessIsTransitive | pkg/asn1/asn1go/oid.go:111-119 | the order is transitive |
| BerOid.PrefixIsLess | pkg/asn1/asn1go/oid.go:118 | a proper prefix is less |
| BerReflect.RoundTrip | pkg/asn1/asn1reflect/struct.go:59-150 | a value of any type is unpacked to itself exactly when its object identifiers and all of its chunks are in their domains |
| BerReflect.ChunkRoundTrip | pkg/asn1/asn1binary/helpers.go:3-36 | a framed value in front of anything is read back exactly if it survives, and as no value or another one if not |
| BerReflect.ElemsRoundTrip | pkg/asn1/asn1reflect/slice.go:15-88 | the elements of a slice are read back exactly if all of them survive |
| BerReflect.FieldsRoundTrip | pkg/asn1/asn1reflect/struct.go:59-150 | the fields of a struct are read back exactly if all of them survive |
| BerReflect.IntRoundTrip | pkg/asn1/asn1reflect/integer.go:17-42 | an integer of any size is read back |
| BerPacker.PackValue | pkg/asn1/asn1reflect/struct.go:59-100 | packs a value as the pure function says |
| BerWire.PackedEnvelope | pkg/asn1/asn1binary/tag.go:7-29 | booleans are packed with tag 1, integers with 2, object identifiers with 6, strings with 12, slices with 16, all of universal class; structs with their own envelope |
| BerWire.PackedContent | pkg/asn1/asn1reflect/struct.go:59-100 | the contents are 1 or 0, the shortest two's complement form, the groups, the bytes, or the chunks |
| BerWire.PartsAreChunks | pkg/asn1/asn1reflect/slice.go:21-36 | elements and fields are framed one behind the other, in order |
| BerWire.FirstByteOfChunk | pkg/asn1/asn1binary/value.go:16-23 | the first byte of a packed value is 01, 02, 06, 0C or 10 |
| BerWire.FirstByteOfStruct | pkg/asn1/asn1binary/value.go:16-23 | the first byte of a packed struct has its class in the two high bits and its tag in the others |
| BerWire.BasicUnpacksIff | pkg/asn1/asn1reflect/integer.go:17-42 | exactly which envelopes and contents are unpacked to booleans, integers, strings and object identifiers |
| BerWire.EnvelopesAccepted | pkg/asn1/asn1go/integer.go:18-25 | with which class and tag each of these types can be unpacked at all |
| BerWire.AnyEnvelope | pkg/asn1/asn1reflect/struct.go:101-150 | slices and structs are unpacked whatever their envelope |
| BerPacker.PackParts | pkg/asn1/asn1reflect/slice.go:21-36 | the loop over elements or fields frames one after the other through one reused value |
| BerPacker.UnpackValue | pkg/asn1/asn1reflect/struct.go:101-150 | unpacks a value as the pure function says |
| BerPacker.UnpackSlice | pkg/asn1/asn1reflect/slice.go:42-88 | the loop reads elements until no bytes are left |
| BerPacker.UnpackStruct | pkg/asn1/asn1reflect/struct.go:119-147 | the loop reads one chunk per field; too many and too few are errors |
| StaticRoot.IncIP | internal/source/static_root.go:61-68 | the array holds the next address, with the carry done in place |
| StaticRoot.NextIsSuccessor | internal/source/static_root.go:61-68 | the next address is the successor of the big-endian number, modulo 256 to the number of bytes |
| StaticRoot.SameMaskIff | internal/source/static_root.go:73 | masks byte by byte are the same exactly when the addresses are in the same aligned block of numbers |
| StaticRoot.ContainsIff | internal/source/static_root.go:73 | a network contains the addresses of its block, except for IPv4-mapped ones where it is not mapped itself |
| StaticRoot.AddressesAreExact | internal/source/static_root.go:73-80 | the list has every address of the network in front of the first mapped one and no other, once and in increasing order |
| StaticRoot.MissesIff | internal/source/static_root.go:73 | addresses of the network are missing from the list exactly when its block reaches beyond the mapped ones |
| StaticRoot.LongPrefixMissesNone | internal/source/static_root.go:73 | for IPv4, and for IPv6 from prefixes of 80 bits on, none is missing |
| StaticRoot.NextAddress | internal/source/static_root.go:73 | behind the last address the network contains no more, not even where the addresses start again at 0 |
| StaticRoot.Enumerate | internal/source/static_root.go:73-80 | the loop ends and lists exactly those addresses |
| StaticRoot.StaticRoot.Discover | internal/source/static_root.go:70-86 | as many blanks as there were hosts the last time, all addresses of all networks, and the named hosts |
| StaticRoot.HostAt | internal/source/static_root.go:70-86 | which host stands at which position: blanks, the addresses network by network, the named hosts |
| StaticRoot.NewStaticRoot | internal/source/static_root.go:23-59 | networks with a prefix of fewer than 24 bits are refused, of IPv4 and IPv6 alike, and so is a source without hosts |

## Left out

- I/O, command line, publishers, reports, filters, UDP transport and packet capture: no logic of their own.
- compileMeta is taken to succeed, and definitions that are neither objects nor type references compile to themselves.
- Lookup of qualified names (`module.name`), and reading of modules, imports, exports and macro definitions: scopes and grammars are given.
- Elements of an object are told apart as numbers, `iso` and names when the object is made, with the same strconv.Atoi.
- Source positions and the text of errors: an error is `None`, `Fail` or an outcome of its own.
- A list stands for the scanner at the bottom of a stack of projections (`ScannerReader`). The scanner's Source method refills the queue as IsEOF does.
- Tokens in readers are their texts; token identity is modelled in the scanner, where words are joined in place.
- Blocks are given back as values, not as new lists.
- Text values keep their quotes: Unquote is not part of this model.
- Expected tokens have a text; a macro with an empty one makes the source panic where the model goes on.
- Carriage returns and bytes beyond ASCII in MIB text, and the limit of 64 KB for one token.
- MibDatabase.IndexDefinitions: says nothing about the table of all definitions by name, in which the order of modules decides between equal names.
- Value.ReadFrom and the decoder on top of it: they read a long length differently from Unmarshal.
- Struct fields with asn1 tags, SNMP messages, Any, Sequence, times, durations, bit strings, arrays and optional values.
- Strings of other tags than UTF8String and OctetString: unpacking them is `None` here.
- BerReflect.RoundTrip: unpacking starts from a zero value; the source appends to a slice that has elements already.
- Parameters are absent throughout: nothing overrides a tag or a class.
- Cancellation during discovery; an address is its bytes, not its text.
- net.IPNet.Contains, net.IP.Mask and what net.ParseCIDR promises of its result are modelled from their documentation; reading the text of a network is not.
