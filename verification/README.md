# A verified model of halevt

Halevt is a daemon that mirrors HAL's device database in a list of its own, evaluates boolean match
expressions over it when HAL reports an event, and spawns the commands of the rules that fire. Its
companion halevt-mount keeps a text table of the devices it handles. This project models both in Dafny and
proves what their hardest parts do, for every input, every list and every run.

- **The device cache.** `DeviceList` has the nested linked lists as classes that are changed in place, and
  every operation is proved against a function on sequences of cells (`Cells`, `Handlers`). `Events` is a
  step system in which HAL changes and queues events, start-up scans all devices twice, and handlers read
  HAL as it is when they run. It proves when the cache is right nevertheless.
- **Matching twice.** `Matching` defines a rule's verdict and command on the database and on the cached
  device. For every cache that covers the database, stale cells or not, it proves exactly when a match and
  a property's values agree: the compared text has to be canonical, and the chain of parents must not
  stray to a cell where the database leads nowhere. `Evaluation` has the loops that compute verdicts, with
  the expansion of commands into a growing buffer, `Daemon` the event callbacks, and `Runs` drives the
  daemon through the runs of the step system. `Reference` and `PropertyRules` say what matches, commands
  and rules mean without these functions, on the keys of the database and the cells themselves: chains of
  parents are sequences of devices, a command falls into pieces, and the commands of a callback are those
  of exactly the rules that are true, in order. What the callbacks spawn is stated in these terms.
- **Match expressions.** `MatchTokens`, `MatchTokeniser` and `MatchParser` are the scan that cuts the input
  while it reads it, the splitting of atoms, and the theorem that the whole pipeline preserves meaning;
  `Rules` takes it from the strings of the configuration to the rules that are evaluated.
  The library that parses the skeleton and normalises it, boolstuff, is not part of this model;
  `BoolStuff` is a stand-in with the usual grammar (`!`, `&`, `|`, parentheses), itself proved.
- **Paths and command templates.** `PropertyPaths`, `PathParser`, `ExecTemplates` and `ExecParser` are the
  counting and cutting passes, proved against printers that they invert.
- **The table of halevt-mount.** `UditabText`, `UditabReader`, `UditabSync` and `Uditab` are its text form,
  the in-place line parser, what synchronising does to the list, and the list as a class.
- **Configuration files and printers.** `ConfFiles` is the search for configuration files, `Printers` the
  printers for debugging.

Buffers are arrays of characters with a terminator, and a pointer into a buffer is an index (`CStrings`,
`CBuffers`). HAL is a value that every operation takes as it is at that moment; spawned commands are a log.

## What turned out differently from what one would expect

- The real start scans all devices twice and adding does not look for an entry that exists. If nothing
  changes meanwhile, every device then has two cells (`Events.RealStartDoubles`). Lookups are right
  nevertheless (`Events.QuiescentConsistency`), but one removal leaves a stale cell exactly if there were
  at least two (`Events.RemovalLeavesStale`).
- A stale cell is not harmless: a removed parent that the start found is still followed through the cache
  of its child, so that a removal rule of the child can fire on it although HAL knows no such parent.
  `Matching.StaleChainDisagrees` is a run of the program from its real start on which this happens, with a
  string as parent and a canonical value; `Matching.MatchAgrees` says exactly when it does.
- A match compares by type on the database and as text on the cache. The two agree exactly on canonical
  texts (`Matching.EqualsPrinted`): a boolean that is false agrees on "true" and "false" only, an integer
  on its own decimal form and on everything that does not read as it.
- Removing a node of the halevt-mount list compares the *previous* node with the head, so a rejected entry
  right behind the only kept one takes that one with it. The loop equals a plain filter exactly if the
  first accepted entry is not directly followed by a rejected one (`UditabSync.LoopIsFilter`);
  `UditabSync.GoodHeadLost` is a file of two lines that loses its only good one.
- A line of the table can be one character longer than the size given to `fgets` suggests, because its end
  need not fit (`UditabText.ParseInvertsPrint`). Synchronising even heals lines whose fields hold colons
  (`UditabSync.ThreeSyncs`).
- The documentation (doc/halevt.texi:215-228) does not restrict where in a command a property stands; the code
  rejects a command that opens with one, and the model follows the code (`ExecTemplates.TemplateExists`).
- A command of 24 elements needs a buffer size above the largest int, however short the elements are
  (`Evaluation.CapacityFits`).

## Model

| member | source | states |
|---|---|---|
| `Events.StepKeepsInvariant` | src/hal_interface.c:508-628 | every step (HAL changes, start-up scans, handled events) keeps: the last pending event for a udi and key says whether HAL has the device and key now, and a scanned device that neither comes nor goes has a cell that is right about every key without a pending event |
| `Events.QuiescentConsistency` | src/hal_interface.c:508-628 | from the real start, in every interleaving, whenever the program is up and no event is pending, looking up any device of HAL yields exactly HAL's keys and formatted values |
| `Events.ConsistencyFromAnyCover` | src/hal_interface.c:595-628 | the same from any quiet state in which the cache covers HAL, whatever stale or doubled cells it holds |
| `Events.ExactConsistency` | src/devices_list.c:54-221 | from a start without duplicates, every quiet state of every run holds one cell for each device of HAL, no other cell, and exactly HAL's values |
| `Events.RealStartDoubles` | src/manager.c:365-417 | after an undisturbed start with its two scans, every device has exactly two cells and no other udi has any |
| `Events.RemovalLeavesStale` | src/devices_list.c:113-132 | removing a device from a quiet state leaves a cell for it exactly if it had at least two |
| `Events.ExcessStays` | src/hal_interface.c:508-628 | while every change is handled before the next one, no device gains or loses a cell beyond the one it should have |
| `Events.StartLeavesOneStale` | src/manager.c:365-417 | after an undisturbed real start, in every such run, the devices that were there at the start have one cell too many for ever and the others none, so a lookup of a device that is gone finds a stale cell exactly if it was there at the start |
| `Handlers.HandleOnStack` | src/devices_list.c:54-221 | an event acts on the stack of its udi alone: an insertion pushes, a removal pops the newest cell, a modification changes the newest cell only |
| `Handlers.RefinesStacks` | src/devices_list.c:54-221 | from any start and over any sequence of events, the list is a map from udis to stacks, each run on its own |
| `Handlers.DistinctAfter` | src/devices_list.c:79-101 | no event makes a cell hold two properties with one key, if HAL's property sets have none |
| `Handlers.ModifiedLookup` | src/hal_interface.c:619-627 | after a modification a lookup finds the key as HAL has it now, or nothing if it was removed, and every other key as before |
| `Handlers.AddedLookup` | src/hal_interface.c:508-523 | after an insertion a lookup finds what HAL has now, even if older cells exist |
| `Cells.LookupIsTop` | src/devices_list.c:134-144 | a lookup finds the newest cell of a udi |
| `Cells.LoadShows` | src/devices_list.c:79-101 | a new cell shows exactly the keys and formatted values of the property set, though it is loaded in reverse |
| `Cells.GetAfterSet` | src/devices_list.c:159-196 | setting a property replaces or adds that key and leaves every other one |
| `Cells.GetAfterDrop` | src/devices_list.c:198-221 | removing a property removes that key and leaves every other one |
| `DeviceList.DeviceNode.Find` | src/devices_list.c:146-157 | the walk finds the first property with the key, and the node in front of it |
| `DeviceList.DeviceNode.Set` | src/devices_list.c:171-194 | the chain afterwards shows the properties with the key set, in place or in front |
| `DeviceList.DeviceNode.Drop` | src/devices_list.c:209-218 | the chain afterwards shows the properties without the first one with the key |
| `DeviceList.DeviceList.AddDevice` | src/devices_list.c:54-111 | the list afterwards is the old one with the loaded cell in front, or the old one if HAL has no such device |
| `DeviceList.DeviceList.RemoveDevice` | src/devices_list.c:113-132 | the list afterwards lacks the newest cell of the udi and is otherwise the same, order included |
| `DeviceList.DeviceList.FindDevice` | src/devices_list.c:134-144 | finds the newest cell of the udi, and the node in front of it |
| `DeviceList.DeviceList.SetProperty` | src/devices_list.c:159-196 | changes the newest cell of the udi to what HAL has for the key now, or nothing if there is no cell or HAL lacks the key |
| `DeviceList.DeviceList.RemoveProperty` | src/devices_list.c:198-221 | removes the key from the newest cell of the udi and nothing else |
| `Matching.EqualsPrinted` | src/hal_interface.c:127-171 | comparing a string, boolean, 32-bit integer or string list by its type and comparing its printed form have the same result exactly for canonical texts; 64-bit and double values see below |
| `Matching.ResolveAgrees` | src/hal_interface.c:197-226 | on every cache that covers HAL, stale cells or not, and for parent chains of any length: following them through the cache ends at the cell of the device that following them through HAL ends at, unless the chain strays, and then HAL leads to no device |
| `Matching.StringsStay` | src/hal_interface.c:273-294 | without stale cells, chains of string-valued parents do not stray |
| `Matching.StringsStayOn` | src/hal_interface.c:281-286 | on every covering cache, a chain of string-valued parents that does not stray never comes to a parent without a value |
| `Matching.ValuesAgree` | src/hal_interface.c:362-407 | on every covering cache, the values that stand for a property in a command are the same from the cell as from HAL if and only if the chain, if it strays, finds no such property |
| `Matching.MatchAgrees` | src/hal_interface.c:228-321 | on every covering cache, a match has the same verdict on the cell as on HAL if and only if the compared value is canonical for the property, or the chain strays and the match is false on the cell |
| `Matching.VerdictAgrees` | src/match.c:309-346 | so have whole expressions, when that holds for each of their matches |
| `Matching.ExpandAgrees` | src/hal_interface.c:431-482 | expanded commands are the same from the cell as from HAL, when that holds for each of their properties |
| `Matching.CommandsAgree` | src/hal_interface.c:541-548 | the rules that fire and the commands they expand to are the same by device as by udi |
| `Matching.RemovalSeesLastState` | src/hal_interface.c:529-565 | from the real start with its two scans, in every run: when a removal happens in a quiet state and is handled before HAL changes again, the commands are those of HAL's state just before the removal, for rules under the conditions of `MatchAgrees` and `ValuesAgree` |
| `Matching.DuplicateFreeRemoval` | src/hal_interface.c:529-565 | from a start without duplicates, string-valued parents and canonical values are all that this takes |
| `Matching.StaleChainDisagrees` | src/hal_interface.c:273-294 | a run from the real start after which a match with a string-valued parent and a canonical value holds on the cache and not on HAL |
| `Reference.LeadsIsResolve` | src/hal_interface.c:197-226 | parents resolve to a device exactly if some sequence of devices starts at the udi, ends there, and each names the next with a string under the parent's key |
| `Reference.CellLeadsIsResolve` | src/hal_interface.c:273-294 | on the cache the same, with the first value of the first property with the key, and the first cell of the udi that it names |
| `Reference.ValueIs` | src/hal_interface.c:362-407 | apart from the udi itself, a path has exactly the values that HAL's value at the end of its chain formats to, or that the cell there holds |
| `Reference.PieceIs` | src/hal_interface.c:442-466 | an element's text is its own, the udi, or the first such value, and "UNKNOWN" only if no value stands for the path |
| `Reference.ExpandFalls` | src/hal_interface.c:431-482 | an expanded command falls into these pieces, one for each element, in order |
| `Reference.MatchIsTrue` | src/hal_interface.c:228-321 | a match holds exactly if some device ends its chain and has the property, with a value that compares by type to the text on HAL, or holds the text on the cache |
| `Reference.VerdictIsTrue` | src/match.c:309-346 | the verdict is that some term has only positives that select a true match and no negative that does |
| `Reference.FiringRules` | src/hal_interface.c:541-548 | there is a strictly increasing sequence of rule numbers that holds a number exactly if that rule's expression is true, and the commands are those of these rules, in order |
| `PropertyRules.AppliesIs` | src/hal_interface.c:604-611 | an action applies exactly if its rule is about the key, the rule is true for the udi on HAL, and the action is for "*" or for a text that the key's value compares to |
| `PropertyRules.PropertyCommandsAct` | src/hal_interface.c:595-618 | the commands for a modification are those of exactly the actions that apply, ordered by rule and action |
| `Evaluation.PropertyMatchesUdi` | src/hal_interface.c:107-195 | the comparison by type, and presence alone without a value |
| `Evaluation.ResolveUdi` | src/hal_interface.c:197-226 | the loop over parents finds the udi at the end of the chain, or none |
| `Evaluation.PropertyMatchesDevice` | src/hal_interface.c:246-268 | true exactly if the cell has the key and, with a value, the value is among its values |
| `Evaluation.ResolveParent` | src/hal_interface.c:281-291 | one parent: the newest cell of the device that it names, and whether it has no value to name one |
| `Evaluation.ResolveDevice` | src/hal_interface.c:273-294 | the loop over parents finds the newest cell at the end of the chain, or none, and whether it came to a parent without a value |
| `Evaluation.MatchHolds` | src/hal_interface.c:308-321 | by udi when one is given, else by device; "*" always holds |
| `Evaluation.ParsedInRange` | src/match.c:296-301 | the terms of an accepted match string never select a match outside the array |
| `Evaluation.TrueTree` | src/match.c:309-346 | the term loop with its early exits is true exactly if some term has all its positive and none of its negative matches, and a match is true as `Reference.MatchIsTrue` says it on the database or the cell |
| `Evaluation.PropertyNameValue` | src/hal_interface.c:362-407 | the udi itself, else the values from the cell when there is one, else from HAL |
| `Evaluation.CapacityIs` | src/hal_interface.c:467-470 | the buffer size after n elements is 255 * 2^n plus the sum of 2^(n-i+1) * length i |
| `Evaluation.CapacityFits` | src/hal_interface.c:417-469 | a sufficient condition for the size to fit an int, and that it never does from 24 elements on |
| `Evaluation.ExpandCommand` | src/hal_interface.c:413-482 | the text falls into one piece for each element, in order: a literal's text, the udi, the first value that the property at the end of the path has on the database or the cell, or "UNKNOWN" exactly if there is none; the growth guard always holds, so no element is skipped, and text and terminator always fit |
| `Daemon.FiredMeans` | src/hal_interface.c:508-618 | for each kind of event, what is spawned is one command for each rule or action that is true, in order |
| `Daemon.Daemon.Fire` | src/hal_interface.c:541-548 | the loop over rules yields the commands of exactly the rules whose expression is true, in order |
| `Daemon.Daemon.FireProperty` | src/hal_interface.c:595-618 | the loops over rules and actions yield the commands whose meaning `PropertyRules.PropertyCommandsAct` states |
| `Daemon.Daemon.Scan` | src/hal_interface.c:814-831 | one device of a start-up scan: one command for each start rule whose expression is true on HAL, in order, and no other, then a new cell |
| `Daemon.Daemon.DeviceAdded` | src/hal_interface.c:508-523 | spawns one command for each insertion rule whose expression is true on HAL, in order, and no other, then adds the cell |
| `Daemon.Daemon.DeviceRemoved` | src/hal_interface.c:529-565 | spawns one command for each removal rule whose expression is true on the newest cell of the udi, or on HAL if there is no cell, in order, and no other, then removes the cell |
| `Daemon.Daemon.PropertyModified` | src/hal_interface.c:595-628 | spawns, in the order of rules and actions, one command for each action whose rule is about the key and true for the udi and whose value is "*" or compares equal to the key's value now, and no other, then removes or sets the property in the cell |
| `Daemon.Daemon.Dispatch` | src/hal_interface.c:867-875 | the callbacks do to the linked lists what the step system says a handled event does, and spawn what the rules that are true call for |
| `Runs.Take` | src/hal_interface.c:867-911 | one step of the step system, taken by the linked lists; the new commands are those of exactly the rules that are true at that step |
| `Runs.Follow` | src/hal_interface.c:508-628 | over any run the linked lists go through the caches of the step system and the spawned commands are those of its steps; from the real start, whenever the program is up and no event is pending, the linked lists hold what HAL holds |
| `MatchTokens.TokensUnique` | src/match.c:83-150 | a string has one sequence of tokens only |
| `MatchTokens.SpacedIsTokens` | src/match.c:83-150 | whatever blanks stand in front of, between and behind tokens, the string has these tokens: blanks around atoms and delimiters do not count, and those inside an atom do |
| `MatchTokens.LexOfSkeleton` | src/match.c:116-143 | the lexemes of the skeleton are the delimiters and the printed indices, in order: no two indices merge |
| `MatchTokens.SourceOfIndexed` | src/match.c:111-121 | substituting the atoms for their indices gives the source back |
| `MatchTokens.VarsAreIndices` | src/match.c:199-217 | every variable of the parsed skeleton is the index of an atom |
| `MatchTokens.DoublingSuffices` | src/match.c:126-134 | one doubling makes room for the next index, delimiter and terminator, for any number of atoms |
| `MatchTokens.MeaningPreserved` | src/match.c:83-217 | the skeleton parses exactly if the source does, and its normal form with variables looked up by index means what the source means |
| `MatchTokeniser.IndexFits` | src/match.c:57-123 | an index never needs more than ten of the 256 characters kept for it, so the error branch is never taken |
| `MatchTokeniser.EndAtom` | src/match.c:92-109 | the atom is cut behind its last ink, recorded in an array that is large enough, and nothing behind it changes |
| `MatchTokeniser.MakeRoom` | src/match.c:126-134 | the skeleton buffer has room for index, delimiter and terminator afterwards |
| `MatchTokeniser.Tokenise` | src/match.c:83-150 | the scan that cuts its input yields its tokens: they spell the input without the blanks next to delimiters and at the ends, and skeleton and atom array are those of the tokens |
| `MatchParser.TrimRightIs` | src/match.c:182-184 | text that does not end in a blank, with any blanks behind it, is trimmed to that text |
| `MatchParser.TrimRightSplits` | src/match.c:182-184 | trimming leaves a prefix that does not end in a blank and takes only blanks off |
| `Numbers.SkipSpacesIs` | src/match.c:180-180 | text that does not start with a blank, with any blanks in front of it, is skipped to that text |
| `Numbers.SkipSpacesSplits` | src/match.c:180-180 | skipping takes only blanks off the front and leaves no more of them there |
| `MatchParser.AtomReads` | src/match.c:173-195 | name, blanks, "=", blanks, value, with a name that holds no "=" and does not end in a blank and a value that does not start with one, reads as exactly the path of that name and that value |
| `MatchParser.AtomSpelledOut` | src/match.c:173-195 | every atom with a sign is of that form |
| `MatchParser.SplitAtom` | src/match.c:173-195 | an atom is accepted exactly if it reads as a path or as path, sign and value; the slot reads them, and no cell outside the atom changes |
| `MatchParser.SplitAtoms` | src/match.c:166-196 | all atoms are split if every one reads as a match, though they lie in one buffer that each split cuts |
| `MatchParser.IndexSelects` | src/match.c:296-301 | the index read back from a variable selects the match of the atom that produced it |
| `MatchParser.VerdictPreserved` | src/match.c:296-346 | for every accepted match string the verdict of the terms is the truth of the source with every atom evaluated in its own place |
| `MatchParser.NewBooleanExpression` | src/match.c:37-229 | accepts exactly the strings whose atoms and structure are acceptable, and leaves their matches and a normal form of their skeleton |
| `Rules.ParseMatchString` | src/match.c:37-346 | from a match string to an expression whose verdict is, whatever a match is taken to mean, the truth of the string with every atom evaluated in its own place, and which selects no match that is not there |
| `Rules.ParseCommand` | src/parse_config.c:110-212 | from a command string to the elements that it denotes |
| `Rules.NewRule` | src/parse_config.c:305-331 | a rule, if and only if both strings are accepted, that means what they mean |
| `Rules.MatchString` | src/match.c:37-346 | from a match string to its verdict: the truth of the string for the device on HAL, or for the cached device |
| `BoolStuff.ParseInvertsPrint` | src/match.c:199-199 | the stand-in parser reads every expression back from its printed form |
| `BoolStuff.Precedence` | src/match.c:199-199 | without parentheses `!` binds before `&`, and `&` before `|` |
| `BoolStuff.ParseRenames` | src/match.c:111-121 | parsing does not look at variable names |
| `BoolStuff.DnfIsDnf` | src/match.c:217-217 | the stand-in's normal form has the meaning and the variables of the expression |
| `Numbers.AtoiInvertsDec` | src/hal_interface.c:150-154 | `atoi` inverts "%d" on every int |
| `PropertyPaths.RenderInvertsParse` | src/parse_config.c:55-108 | printing a parsed path gives the string back, and what was parsed is well formed |
| `PropertyPaths.ParseInvertsRender` | src/parse_config.c:55-108 | parsing a printed path gives it back if and only if it is well formed |
| `PropertyPaths.ReadsParentAndName` | src/parse_config.c:55-108 | "hal.", a parent, ".hal." and a name read as the path of that parent and name |
| `PropertyPaths.OverlapRejected` | src/parse_config.c:64-68 | a string with overlapping or adjoining separators is rejected |
| `PathParser.HalString` | src/parse_config.c:43-50 | behind the prefix if something follows it, else NULL |
| `PathParser.CountSeparators` | src/parse_config.c:62-68 | counts one less than there are pieces |
| `PathParser.CutInPlace` | src/parse_config.c:74-88 | cuts the very pieces that were counted, though its own terminators go into the string it searches |
| `PathParser.StripPrefixes` | src/parse_config.c:90-101 | succeeds exactly if every piece has a prefix and something behind it |
| `PathParser.ParsePropertyName` | src/parse_config.c:55-108 | yields a name exactly if the string denotes a path, and then the pieces read that path; no cell outside the string changes |
| `ExecTemplates.SplitUnique` | src/parse_config.c:172-206 | a command has one split into text and properties only |
| `ExecTemplates.TemplateUnique` | src/parse_config.c:110-212 | two element lists that print as the same command are the same |
| `ExecTemplates.TemplateExists` | src/parse_config.c:110-212 | a command denotes a list that prints as it if and only if it does not open with a property and every property is an acceptable path |
| `ExecTemplates.PropertyBetweenTexts` | src/parse_config.c:110-212 | text, "$", an acceptable path, "$" and text read as exactly these three elements |
| `ExecTemplates.UnterminatedStaysLiteral` | src/parse_config.c:193-196 | a command stays one literal exactly if no property is opened and closed in it and it does not open with one |
| `ExecParser.CountRound` | src/parse_config.c:141-147 | a round of the counting pass, which may start inside what it counted before, finds the next property or closes no later than it opens |
| `ExecParser.CountElements` | src/parse_config.c:139-157 | the counting pass never counts fewer elements than there are, closing marks that look like openers included |
| `ExecParser.FillElements` | src/parse_config.c:166-208 | every write of the filling pass is inside an array of the counted size; it succeeds exactly if every path is acceptable, and the elements read the command |
| `ExecParser.NewExec` | src/parse_config.c:110-212 | accepts exactly the commands that denote an element list, and leaves that list |
| `UditabText.LineParses` | halevt-mount/halevt-mount.c:74-148 | a line that fits is read in front of whatever follows it, even when its end needs a chunk of its own |
| `UditabText.LineShapes` | halevt-mount/halevt-mount.c:449-479 | the four shapes of a line, and that udi, device and mount point with colons between are read back |
| `UditabText.ParsedIsPrintable` | halevt-mount/halevt-mount.c:60-150 | reading any file at all leaves only records that a line can hold |
| `UditabText.ParseInvertsPrint` | halevt-mount/halevt-mount.c:60-150 | a printed table is read back reversed if and only if every record has a non-empty udi and device without colons and line ends, a non-empty mount point without line ends, and at most 1022 characters in front of the line end |
| `UditabReader.FGets` | halevt-mount/halevt-mount.c:74-74 | the buffer holds what C sees of the next chunk |
| `UditabReader.ParseLine` | halevt-mount/halevt-mount.c:79-142 | the in-place parser yields the fields up to the first and second colon, and no record for an empty udi |
| `UditabSync.LoopIsSurvivors` | halevt-mount/halevt-mount.c:387-428 | the exact result of the removal loop as it is written |
| `UditabSync.SurvivorsAreLast` | halevt-mount/halevt-mount.c:387-428 | the loop keeps accepted entries only, in order, and all of them but the first few |
| `UditabSync.LoopIsFilter` | halevt-mount/halevt-mount.c:387-428 | the loop is the plain filter if and only if the first accepted entry is not directly followed by a rejected one |
| `UditabSync.GoodHeadLost` | halevt-mount/halevt-mount.c:387-428 | a database and a file of two lines at which the only accepted entry is lost |
| `UditabSync.CheckKeeps` | halevt-mount/halevt-mount.c:206-385 | a device is accepted with a record exactly if `block.is_volume` is true, `volume.fsusage` is "filesystem", the record's device is `block.device`, and its mount point is `volume.mount_point` if `volume.is_mounted` is true and none if it is there otherwise |
| `UditabSync.CheckEnds` | halevt-mount/halevt-mount.c:206-385 | the program ends exactly if a string that the check gets to is there with another type |
| `UditabSync.JudgeAccepts` | halevt-mount/halevt-mount.c:206-385 | a record of the table is replaced by another one exactly if that has its udi and is HAL's record of a volume |
| `UditabSync.SyncedIsCurrent` | halevt-mount/halevt-mount.c:206-430 | after synchronising, every entry is HAL's record of a volume, by the keys of the database: its device is `block.device`, and its mount point is `volume.mount_point` exactly if it is mounted |
| `UditabSync.SyncReverses` | halevt-mount/halevt-mount.c:401-483 | writing entries that are up to date and synchronising again reverses them and loses none |
| `UditabSync.ThreeSyncs` | halevt-mount/halevt-mount.c:1031-1037 | with HAL unchanged and from any file: the first synchronisation leaves HAL's records of volumes, by the keys of the database, the second the same entries reversed, the third the first one's file, provided the entries fit on lines; the second and third never end the program |
| `Uditab.UdiNode.Check` | halevt-mount/halevt-mount.c:206-385 | accepts a node exactly if HAL has a record of a volume for its udi, by the keys of the database, and stores HAL's device and mount point; ends the program exactly if a string that it needs has another type |
| `Uditab.Uditab.ParseFile` | halevt-mount/halevt-mount.c:60-150 | the list holds the records of the file, last line first |
| `Uditab.Uditab.RemoveUdi` | halevt-mount/halevt-mount.c:387-399 | removes the current node, and the kept one in front of it too if that is the head |
| `Uditab.Uditab.Sync` | halevt-mount/halevt-mount.c:415-428 | the loop that relinks the list leaves what the removal loop on values leaves, or ends the program exactly if some check does |
| `Uditab.Uditab.FindUdi` | halevt-mount/halevt-mount.c:485-535 | the array holds exactly the nodes asked for, in order, and a null; every write is inside it |
| `Uditab.WantedUdisAre` | halevt-mount/halevt-mount.c:485-535 | a udi is found exactly if some entry has it and matches by udi, by device, by mount point, or by any of them |
| `Uditab.Uditab.Clean` | halevt-mount/halevt-mount.c:1193-1220 | the clean loop leaves what the removal loop on values leaves for the found udis |
| `Uditab.Uditab.PrintUdis` | halevt-mount/halevt-mount.c:432-483 | prints every record in order in one of four shapes |
| `Uditab.Uditab.Rewrite` | halevt-mount/halevt-mount.c:650-678 | the file afterwards is the printed table, or none for an empty one |
| `Uditab.SyncFile` | halevt-mount/halevt-mount.c:1031-1037 | the sync command: the file afterwards, unchanged if a check ends the program |
| `Uditab.CleanFile` | halevt-mount/halevt-mount.c:1157-1240 | the clean command: the file afterwards, unchanged if a check ends the program or nothing is found |
| `Uditab.CleanedIsClean` | halevt-mount/halevt-mount.c:1193-1220 | no entry that cleaning leaves has the udi, device or mount point that was asked for, and each was there before |
| `Uditab.CleanedIsRest` | halevt-mount/halevt-mount.c:1193-1220 | unless the first entry whose udi is not found is directly followed by one whose udi is, cleaning leaves exactly the entries whose udi is not found |
| `ConfFiles.StepSkipsNothing` | src/manager.c:131-138 | stepping on by four from the own position stays inside the name and never skips an extension at its end |
| `ConfFiles.EndsInExtension` | src/manager.c:128-143 | the scan ends, and accepts exactly the names that end in ".xml" |
| `ConfFiles.OffersIs` | src/manager.c:100-143 | a directory offers a name exactly if it lists a regular file of that name which ends in ".xml" and is longer |
| `ConfFiles.FirstDirectoryWins` | src/manager.c:100-182 | a name is found exactly if some directory lists a regular file of that name which ends in ".xml" and is longer, once, and the file is that of the first such directory |
| `ConfFiles.MergeOrdered` | src/manager.c:100-182 | files stand in the order in which they are first read: by directories, and within a directory by its entries |
| `ConfFiles.FindConfFiles` | src/manager.c:59-187 | the two growing arrays end up holding that merge, in order of directories and entries |
| `Printers.PrintPropertyName` | src/parse_config.c:231-253 | text and terminator exactly fill the allocation that the sizing pass computed |
| `Printers.PrintExec` | src/parse_config.c:256-303 | the same for command templates with any number of elements |
| `Printers.PrintBooleanExpression` | src/match.c:248-294 | the same for expressions with any number of atoms |

## Left out

- Foreign calls: libxml2, D-Bus, libhal, the glib main loop, spawning, signals, daemonising, pid and lock files, uid switching. HAL is a map from udis to keys to values that each operation reads at one moment.
- The library boolstuff, which is not in the repository; the module `BoolStuff` stands in for it.
- Running out of memory, failing writes and renames, frees and leaks, messages, and the branches for NULL arguments that no caller passes.
- `Matching.EqualsPrinted`: 64-bit and double values are a printed text with any predicate as their comparison, because printing and comparing them belong to the C library; the canonical texts of such a value are by definition those on which its comparison and its printed form agree, and nothing is proved about which ones these are.
- `Evaluation.PropertyMatchesUdi`: the same predicate stands for the comparison of 64-bit and double values.
- Property getters of the wrong type: the boolean getter is false and the string getter yields nothing, which is what the model takes libhal to do; a parent property of another type leads nowhere on the database.
- `Evaluation.ResolveDevice`: a parent property whose list of values is empty makes the code pass a missing string to `strcmp`, which has no defined outcome; the method says when that happens, and its callers go on as if the chain led nowhere.
- `Evaluation.ExpandCommand`: the sizes are integers without bound; `Evaluation.CapacityFits` says when an int holds them.
- `MatchTokeniser.Tokenise`: match strings of 2^31 - 1 characters or more, at which the code's index into the string is no longer an int.
- `MatchParser.NewBooleanExpression`: the same.
- Strings are C strings without terminators inside; operations that copy them into buffers require that of the database and the rules.
- The rule lists, which the configuration parser builds by prepending, are sequences in list order; a parsed rule is held as what its slots read, not as the buffers that they point into.
- The callbacks for conditions and capabilities, which are another filter in front of the same evaluation.
- Changes of the database between setting up the connection and the first scan: the first scan starts with an empty queue. Changes between and during the scans are modelled.
- `Uditab.Uditab.ParseFile`: only on an empty list, as in the program. A file is read as a whole; errors of opening it are not modelled.
- `Uditab.UdiNode.Check`: does not keep whether the volume is marked as ignored, which only listings show.
- `Uditab.Uditab.PrintUdis`: without the annotations about ignored volumes, which are not written to the file.
- Adding devices, mounting and unmounting, mount options, the listing of all devices and the command line of halevt-mount.
- The printers of the device list and of the configuration.
