# Siris, verified

A model of the parts of the Siris web framework that carry the most state and the most case distinctions, with proofs
about every input, every run or every interleaving. `dafny verify dfyconfig.toml` checks it.

- **The router's tree.** Routes live in a compressed prefix tree that splits nodes in place, forces every `:` into a
  node of its own and sorts static siblings before dynamic ones. The tree is modelled twice, as a value
  (`Tree`, `Insert`, `Order`, `Find`) and as linked nodes that are changed in place (`Nodes`, `Router`). It is proved to
  be an index of a plain table of patterns, and lookup to be a function of that table and the offered patterns alone,
  over all runs of registrations (`Table`, `Exact`, `Lookup`), with wildcards beside the plain routes (`Wild`).
- **From a template to a request.** `{id:int min(1) else 404}` goes through a lexer and a parser (`Lexer`, `Parser`,
  `ParserProofs`, `ParserEnds`) and is compiled to a path of the tree (`Template`, `Compile`); `Reverse` goes the other
  way, from a route and its arguments to a path; `MemStore` keeps the parameters. `Serving` joins all of these in one theorem.
- **Stateful protocols.** The in-memory sessions with their recency list and collector (`Sessions`, `SessionRaces`,
  `MemSessions`), the connections and rooms of the websocket server (`Rooms`, `RoomServer`), the handlers of a route
  (`Builder`) and of a request (`Chain`), the rotation of TLS ticket keys (`Rotation`).
- **Codecs.** Byte ranges (`Ranges`, section 2.1 of RFC 7233), the signed and encrypted session cookie (`Cookie`,
  `Base64`, section 5 of RFC 4648), websocket messages (`Message`).

Conventions. One `char` stands for one byte. Handlers are ids. A Go slice that is changed in place is an array and a
length; one that is only appended to and copied is a `seq`. 64-bit integers wrap where `Wrap` is written. Clocks,
random bytes, `fmt.Sprintf`, the key stream and the MAC are parameters. `sort.Slice` may leave equal elements in any
order, so `Prioritized` is a relation.

Where the code falls short of what its comments say, the model follows the code, and each line below names the failing
input and, where there is one, the lemma with the exact condition:

- Lookup gives up when the static text beside a parameter takes the request path whole, or up to a `/`, and leads
  nowhere: with `/a/bx`, `/a/by` and `/a/:p`, `/a/b` is not found (`RouteRuns.NotFound`), with `/a/b`, `/a/c` and
  `/:x/d`, `/a/d` is not (`RouteRuns.SlashNotFound`). A path is found exactly when some pattern spells it and none of
  its parameters is blocked like that (`RouteLookup.RunExact`).
- A wildcard behind a parameter, as in `/u/:id/*f`, keeps the bare `:` in its label and takes no path without one
  (`RouteWild.BehindParamMisses`). A path that is just what all other routes start with is not found, although a
  wildcard takes it (`RouteWild.LookupMixed`): with `/ab`, `/ac` and `/*any`, `/a` is not.
- `{}` is accepted, as a parameter with the name `}` (`MacroRoundTrip.EmptyBraces`).
- A `(` with no later `)` keeps the lexer in its loop (`MacroRoundTrip.NeverEnds`); whether it does is decided by the
  text behind the last `)`, unless a zero byte is taken for the end before (`MacroEnds.EndlessExactly`).
- A template with parameters and a trailing slash loses two bytes, not one (`Template.TrailingSlash`); a parameter is
  replaced at its first occurrence, which need not be its own place. A template is compiled part by part exactly when
  neither happens (`Template.CompiledWhole`).
- `LeaveAll` deletes from a slice while ranging over the old one: a room is left cleanly exactly when the id is last and
  nowhere else, or not last and nowhere twice in a row (`Rooms.LeavesExactly`).
- The collector can remove a session that was used after it was found expired (`Sessions.UsedButCollected`), and does
  so exactly then (`SessionRaces.CollectedExpired`). Two racing first reads leave an element no id leads to
  (`Sessions.RacingReads`), and so does a collector that comes to a session made anew (`SessionRaces.ReplacedOrphaned`);
  which sections keep ids and elements matched is `SessionRaces.SectionMatched`. A regenerated id must be new
  (`Sessions.RegenerateMatched`).
- The suffix range `--5` has a negative length (`Ranges.HeaderBounds`); the sum of many large ranges wraps around
  (`Ranges.SumWraps`), and the ranges served are the right ones exactly when that does not matter
  (`Ranges.ServedExactly`).
- An empty cookie payload never comes back (`Cookie.RoundTrip`); gob never produces one.
- A `Skip` after `StopExecution` revives the chain, which may then run for ever (`Chain.RevivedForever`). A chain
  ends exactly when its calls nest no deeper than there are handlers (`Chain.EndsExactly`); a stopped chain stays stopped
  exactly when the script is quiet (`Chain.StoppedEnters`).

## Model

| member | source | states |
|---|---|---|
| RouteTree.GetAfterMerge | core/router/node/node.go:132-240 | Inserting a path adds its entry exactly when it has handlers and the path had none, reports a duplicate exactly when it had, and keeps every other entry, through every split and descent |
| RouteTree.ReachAfterMerge | core/router/node/node.go:143-215 | Node boundaries are only added, and only along the inserted path |
| RouteTree.MergeKnown | core/router/node/node.go:217-223 | Inserting a known boundary, or a taken entry, changes nothing |
| RouteTree.ShapeAfterMerge | core/router/node/node.go:143-240 | Labels stay non-empty, siblings keep different first bytes, and no label but `:` itself has a `:`, if each `:` of the path had boundaries on both sides |
| Patterns.StripSpec | core/router/node/node.go:33-53 | Normalising a path leaves one `:` per removed name, each followed by `/` or nothing, and putting the names back behind the `:`s gives the path again |
| RouteInsert.BoundariesSpec | core/router/node/node.go:55-78 | The handler-less insertions around each `:` give it boundaries on both sides, keep the shape and every entry |
| RouteInsert.InsertSpec | core/router/node/node.go:30-84 | A whole registration on one tree: the one new entry, the error and the unchanged tree when the pattern is taken, all other entries, the shape and the boundaries |
| RouteOrder.PrioritizedShape | core/router/node/node.go:383-398 | However the sort treats equals, the result keeps the shape and is sorted at every level |
| RouteOrder.PrioritizedGet | core/router/node/node.go:383-398 | Ordering changes no entry and no boundary |
| RouteOrder.ColonLast | core/router/node/node.go:384-393 | In a sorted level no static sibling stands behind the `:` |
| RouteOrder.SortedMeans | core/router/node/node.go:383-393 | A level is sorted exactly when plain siblings stand before parameters and wildcards, those with more nodes below first |
| RouteExact.SizeCounts | core/router/node/node.go:370-376 | The size that siblings are sorted by is the number of boundaries below, each counted once |
| RouteTable.AddKeeps | core/router/node/node.go:30-89 | A registration refines the table: it still holds exactly the entries, shaped and sorted, and the error comes exactly when the pattern has handlers |
| RouteTable.ApartIff | core/router/node/node.go:291-303 | Some level has a `:` beside a static sibling exactly when two offered patterns clash |
| RouteTree.ReachNew | core/router/node/node.go:143-215 | A new node boundary other than the path's own end stands where the path parts from an old boundary |
| RouteTree.NoHandlersNoError | core/router/node/node.go:217-219 | An insertion without handlers reports no duplicate |
| RouteFind.FindSound | core/router/node/node.go:291-367 | Whatever the search finds in a clean tree is an entry whose pattern, filled with the returned values, is the path; no static sibling of its `:`s stands in the way, and every other such entry has a parameter where this one has a literal |
| RouteFind.FoundIf | core/router/node/node.go:291-367 | Where some entry spells the path and no static sibling of one of its `:`s takes the rest of the path whole, or up to a `/`, something is found |
| RouteExact.ReachBoundary | core/router/node/node.go:55-78 | Nodes end exactly where an offered pattern ends, on the sides of its `:`s, and where two offered patterns part |
| RouteExact.ClearIff | core/router/node/node.go:291-361 | Whether a static sibling stands in a pattern's way is decided by the offered patterns: whether the first boundary that the rest of the path meets behind one of its `:`s is the path's end or behind a `/` |
| RouteLookup.RunRepresents | core/router/node/node.go:30-89 | After any run of registrations the tree holds exactly the first registration of each pattern |
| RouteLookup.LookupSound | core/router/node/node.go:244-280 | A found node belongs to a registered pattern that its values, without slashes, turn into the request path, one value for each name; and that is the first one that is not blocked |
| RouteLookup.LookupExact | core/router/node/node.go:291-367 | For any table: a path is found exactly when some registered pattern spells it and none of its parameters is blocked, and the answer is the one of these that has a literal wherever another has a parameter |
| RouteLookup.RunExact | core/router/node/node.go:30-89 | The same for the tree of any run of registrations, with clashing patterns included |
| RouteLookup.OrderIrrelevant | core/router/node/node.go:30-89 | Runs with the same first registrations and the same patterns, in whatever order, answer every path alike |
| RouteLookup.LookupApart | core/router/node/node.go:291-367 | A corollary for tables whose patterns do not clash: found exactly when some registered pattern spells the path, and then with its values |
| RouteLookup.StaticExact | core/router/node/node.go:291-367 | Routes without parameters are looked up like keys of a map |
| RouteLookup.GivesUp | core/router/node/node.go:330-333 | Two patterns that part right behind a static path make lookup of that path fail, whatever else is registered, unless a `:` stands beside an earlier byte of it |
| RouteLookup.SlashMisses | core/router/node/node.go:345-349 | The counterexample family for static text that ends in `/`: a pattern that spells the path is registered, and the path is not found |
| RouteLookup.ClashMisses | core/router/node/node.go:330-333 | The counterexample family: a pattern that spells the path is registered, and the path is not found |
| RouteRuns.RunExists | core/router/node/node.go:30-89 | Every list of registrations leads to some tree, so the statements about all trees of a run are about at least one |
| RouteRuns.NotFound | core/router/node/node.go:330-349 | In every tree of three registrations like `/a/bx`, `/a/by` and `/a/:p` the path `/a/b` is spelled by the third and not found |
| RouteRuns.SlashNotFound | core/router/node/node.go:345-349 | In every tree of three registrations like `/a/b`, `/a/c` and `/:x/d` the path `/a/d` is spelled by the third and not found |
| RouteWild.InsertWild | core/router/node/node.go:100-130 | A named wildcard, whatever else is registered, encloses the `:`s of its start, becomes a node behind all others and is never an error |
| RouteWild.InsertStar | core/router/node/node.go:100-109 | A wildcard without a name is registered as its static start |
| RouteWild.InsertBehindWild | core/router/node/node.go:199-211 | A static path that goes on behind the start of a wildcard registered first becomes a sibling of it |
| RouteWild.PartedServes | core/router/node/node.go:151-197 | A static path that parts from a wildcard inside its start, or ends there, takes its node apart; both are served afterwards, the wildcard with its value |
| RouteWild.AddPlainBeside | core/router/node/node.go:30-89 | Beside wildcards a plain registration adds its entry to the table of the plain ones, or is an error, as without them |
| RouteWild.AddWildBeside | core/router/node/node.go:100-130 | A wildcard registration changes no entry, offers the start up to its last `:`, and adds its node |
| RouteWild.RunMixed | core/router/node/node.go:30-130 | After any run in which the wildcards before the first plain route take every path, the tree is that of the plain routes with the wildcards behind it |
| RouteWild.LookupMixed | core/router/node/node.go:291-367 | Any path is answered by the plain routes alone if they find it; else by the first wildcard that takes it, with the rest as its value; by none when it is just what all plain patterns start with |
| RouteWild.RunMixedExact | core/router/node/node.go:244-367 | So it is in the tree of any such run |
| RouteWild.RunWildOnly | core/router/node/node.go:304-319 | Where only wildcards that take every path are registered, the first answers every path |
| RouteWild.BehindParamMisses | core/router/node/node.go:321-324 | A wildcard behind a parameter takes only paths that have a `:` themselves |
| RouteWild.WildStored | core/router/node/node.go:263-274 | The value is stored under the name of the wildcard, and all other entries stay |
| RouteNodes.MatchLength | core/router/node/node.go:138-149 | The byte loop finds how far label and path agree |
| RouteNodes.FindTarget | core/router/node/node.go:132-149 | The sibling loop stops at the one sibling that takes the path |
| RouteNodes.TreeNode.ForkAt | core/router/node/node.go:151-169 | Overwriting a node with its fork in place gives the value-level fork |
| RouteNodes.TreeNode.ShortenTo | core/router/node/node.go:176-197 | Overwriting a node with a shorter label in place gives the value-level node |
| RouteNodes.TreeNode.MergePath | core/router/node/node.go:138-227 | The in-place step at one node is the value-level step, with the same duplicate error |
| RouteNodes.AddNodes | core/router/node/node.go:91-240 | The in-place insertion into linked nodes is the value-level insertion, touching no foreign node |
| RouteNodes.CountNodes | core/router/node/node.go:370-376 | The recursive count is the size of the subtree |
| RouteNodes.SortNodes | core/router/node/node.go:384-393 | Sorting a slice of nodes gives a sorted rearrangement |
| RouteNodes.Prioritize | core/router/node/node.go:383-398 | Ordering linked nodes in place is one of the value-level orderings |
| Router.StripNames | core/router/node/node.go:31-53 | The index loop that cuts the names out normalises the path and collects the names |
| Router.ColonPositions | core/router/node/node.go:55-63 | The loop finds all positions of `:` |
| Router.FindNode | core/router/node/node.go:291-367 | The search over linked nodes is the value-level search |
| Router.Nodes.Add | core/router/node/node.go:30-89 | On the heap: the tree goes from showing a table to showing the table with the registration; an error exactly for a taken pattern, and then nothing changes |
| Router.Nodes.FindRoute | core/router/node/node.go:244-258 | On the heap: a node is found exactly when some registered pattern spells the path unblocked, and it is the first such pattern's, with one value per name |
| Router.Nodes.Find | core/router/node/node.go:244-280 | The handlers of the first unblocked pattern that spells the path, its values saved under its names in order, and an untouched store exactly when there is none |
| Router.SetParams | core/router/node/node.go:258-274 | The store after the names took their values, and the wildcard name the value left over |
| Router.SavesLast | core/router/node/node.go:258-274 | Each name has its own value, and the wildcard the last one |
| MemStore.Store.Save | core/memstore/memstore.go:69-112 | Saving overwrites, keeps an immutable entry, reuses spare capacity or grows, with the same contents in every case |
| MemStore.Store.Get | core/memstore/memstore.go:133-145 | The value saved last under the key |
| MemStore.Store.Remove | core/memstore/memstore.go:188-203 | Removing in place leaves the other entries in order |
| MemStore.Store.Reset | core/memstore/memstore.go:206-208 | No entries are left, the capacity stays |
| MemStore.SavedGet | core/memstore/memstore.go:69-112 | What is saved is read back, unless the old entry is immutable; other keys keep their values |
| MemStore.SavedAllGet | core/memstore/memstore.go:69-112 | Distinct names saved in turn are all read back, whatever mutable entries were there before |
| MemStore.RemovedGet | core/memstore/memstore.go:188-203 | Where keys are distinct a removed key is gone, and other keys keep their values |
| MemStore.AfterDistinct | core/memstore/memstore.go:69-208 | They are, after any saves, removals and resets of a new store |
| MemStore.AfterRemoved | core/memstore/memstore.go:188-203 | So in any store a removed key is gone, and other keys keep their values |
| MemStore.SavedTwice | core/memstore/memstore.go:69-112 | An immutable entry keeps its value through ordinary saves, and gives way to an immutable one |
| MemStore.SavedKeys | core/memstore/memstore.go:69-112 | Keys keep the order in which they were saved first |
| MemStore.RemovedEntries | core/memstore/memstore.go:188-203 | Exactly the first entry of the key is taken out, all others stay in order |
| Slices.CloseGap | core/memstore/memstore.go:188-203 | `append(s[:i], s[i+1:]...)` on a backing array: elements move up, the last one stays behind |
| Decimal.ParsePrint | core/router/macro/interpreter/ast/ast.go:93-99 | Parsing undoes printing on all 64-bit integers |
| Decimal.ParseExactly | core/router/fs.go:913-941 | A text is a number exactly when it is an optional sign and digits with a value of 64 bits, and then it is that value |
| MacroLexer.Lexer.NextToken | core/router/macro/interpreter/lexer/lexer.go:80-113 | The cursor loop reads the token the rest of the input starts with |
| MacroLexer.Lexer.NextDynamicToken | core/router/macro/interpreter/lexer/lexer.go:117-141 | A number, or everything up to the next `)`, when there is one |
| MacroLexer.Lexer.PeekNextTokenType | core/router/macro/interpreter/lexer/lexer.go:144-150 | The type of the byte under the cursor, unless that is the last one |
| MacroParser.ParamParser.Reset | core/router/macro/interpreter/parser/parser.go:66-69 | The next source is read without the errors of the last one |
| MacroParser.ParamParser.ParseStatement | core/router/macro/interpreter/parser/parser.go:101-195 | The token loop ends on every source on which the lexer stops, with the statement and errors of the reference parser |
| MacroRoundTrip.ParsePrinted | core/router/macro/interpreter/parser/parser.go:101-195 | Every well-formed statement, printed, parses back to the same name, type, functions with their arguments, and code; one printed without a type gives `string`, and one without a code gives 404 |
| MacroRoundTrip.UnknownType | core/router/macro/interpreter/parser/parser.go:126-133 | A word that is none of the five types gives the error for that word at its colon, as the first one, whatever follows |
| MacroRoundTrip.ErrorsStay | core/router/macro/interpreter/parser/parser.go:71-97 | No error is ever taken back, so a statement with one is refused |
| MacroRoundTrip.LargeArgument | core/router/macro/interpreter/parser/parser.go:144-150 | A number beyond 64 bits as an argument is the next error, at its `(` |
| MacroRoundTrip.CodeWord | core/router/macro/interpreter/parser/parser.go:168-173 | A word in the place of the code is the next error, at its `else` |
| MacroRoundTrip.LargeCode | core/router/macro/interpreter/parser/parser.go:174-179 | So is a number beyond 64 bits |
| MacroRoundTrip.NumberAlone | core/router/macro/interpreter/parser/parser.go:189-191 | A number where no argument and no code is read is the next error |
| MacroRoundTrip.NamelessBrace | core/router/macro/interpreter/parser/parser.go:181-186 | A closing brace without a name before it is an error at its place, and the missing name is another |
| MacroRoundTrip.EmptyBraces | core/router/macro/interpreter/parser/parser.go:122-125 | `{}` is no error: the name is `}`, the type string, the code 404 |
| MacroRoundTrip.IllegalByte | core/router/macro/interpreter/lexer/lexer.go:95-107 | A byte that is no letter, digit, white space or sign is the next error, at its place when it is ASCII |
| MacroRoundTrip.SpaceSkipped | core/router/macro/interpreter/lexer/lexer.go:80-81 | White space in front of a token changes nothing |
| MacroRoundTrip.OpenLast | core/router/macro/interpreter/lexer/lexer.go:144-150 | A `(` right before the last byte is not seen to be closed, and takes the empty string as its argument |
| MacroRoundTrip.TokenStands | core/router/macro/interpreter/lexer/lexer.go:152-170 | A word or a number of several bytes stands at its bytes, one of a single byte one behind it, a sign at its byte |
| MacroRoundTrip.ParsingEnds | core/router/macro/interpreter/lexer/lexer.go:80-141 | Parsing ends on every source in which each `(` has a later `)` |
| MacroRoundTrip.NeverEnds | core/router/macro/interpreter/lexer/lexer.go:131-141 | The family of sources with an open `(` on which it never ends |
| MacroEnds.EndlessExactly | core/router/macro/interpreter/lexer/lexer.go:80-141 | Any source: parsing never ends exactly when the text behind its last `)` has a `(` at which the lexer sticks and no zero byte before that `)` is read as the end |
| MacroEnds.EndlessPlain | core/router/macro/interpreter/lexer/lexer.go:80-141 | Without a zero byte before the last `)` the text behind it decides |
| MacroEnds.SticksExactly | core/router/macro/interpreter/lexer/lexer.go:117-141 | On text without `)` the parser never ends, from whatever state, exactly when one of the `(` is read as a token and no digit follows it |
| MacroEnds.OpenExactly | core/router/macro/interpreter/lexer/lexer.go:131-141 | A statement left open behind a function word and `(`: parsing never ends exactly when no `)` follows, and no digit at once |
| Template.ReadTemplate | core/router/macro/interpreter/parser/parser.go:16-45 | The loop over the parts gives the parameters in order, the first part's error, or the misplaced path parameter |
| Template.AcceptedParams | core/router/macro/interpreter/parser/parser.go:16-45 | An accepted template has exactly its `{...}` parts as parameters, each with a name |
| Template.AcceptedPlaced | core/router/macro/interpreter/parser/parser.go:39-41 | Only the last parameter of an accepted template takes a whole path |
| Template.Convert | core/router/macro.go:180-203 | The replacement loop computes the compiled path, or the error for a misplaced path parameter |
| Template.NeverErrs | core/router/macro.go:193-197 | Compiling never fails on a template the parser accepted |
| Template.CompiledExactly | core/router/macro.go:191-201 | Without a trailing slash a path is compiled part by part, parameters to `:name` or `*name` and the rest as it is, exactly when no compiled part holds a later parameter's source |
| Template.PlainUnshadowed | core/router/macro.go:191-201 | That condition holds when static parts and names have no brace |
| Template.TrailingSlash | core/router/macro.go:182-186 | With a trailing slash the result is never the part by part one; where no part hides a later parameter it lacks the last parameter's brace, or the last static part's last byte |
| Template.CompiledWhole | core/router/macro.go:180-203 | Any accepted template with parameters is compiled part by part exactly when it has no trailing slash and no compiled part holds a later parameter's source |
| Compile.AcceptedExactly | core/router/macro/interpreter/parser/parser.go:16-45 | A template is accepted exactly when each part between braces parses without an error and takes a whole path only as the last part |
| Compile.ReadFirst | core/router/macro/interpreter/parser/parser.go:30-39 | And else the first part that does not is reported |
| Compile.PlaceCompiled | core/router/macro.go:191-199 | A printed statement compiles to `*` and its name when it takes a path, and to `:` and its name otherwise |
| Compile.MarkedOnce | core/router/macro.go:196-198 | A name that bears its mark already is not marked twice; a nameless wildcard compiles to nothing |
| Compile.PiecesCompiled | core/router/macro.go:180-203 | Any template of static parts and printed statements, none shadowed, is accepted with its statements as parameters and compiled to its static parts with each statement replaced by `*name` or `:name` |
| Segments.ReplaceInPath | core/router/macro.go:198-200 | The first occurrence of a string without a slash is replaced in the first segment that has one |
| Reverse.FormatPath | core/router/route.go:142-166 | The loop over the parts builds the format of a route |
| Reverse.ResolvePath | core/router/route.go:169-186 | The argument loop fills the format, or leaves a static path, or prints a wildcard's joined arguments |
| Reverse.FormatSpec | core/router/route.go:142-166 | The format of a segmented path is its segments with a mark for each parameter |
| Reverse.FillMarksSpec | core/router/route.go:181-185 | Filling the marks in turn puts each argument in its parameter's place |
| Reverse.ResolveSpells | core/router/route.go:169-186 | The resolved path is the route's pattern filled with the arguments |
| Reverse.ReverseFinds | core/router/route.go:169-186 | Looking the resolved path up finds the route again, and the store then maps each name to its argument |
| RouteWild.WildFormatted | core/router/route.go:132-166 | The format of a path with a wildcard has a mark in its place |
| RouteWild.WildResolved | core/router/route.go:180-185 | A named wildcard resolves to its argument behind the static start |
| RouteWild.StarResolved | core/router/route.go:175-179 | One without a name resolves to all its arguments, joined by slashes |
| Serving.CompiledNames | core/router/route.go:39-66 | The names the tree removes from a compiled template are its parameters' names, in order |
| Serving.TemplateServes | core/router/route.go:39-66 | From template to request: compiling, registering, resolving and looking up answers with the route and stores each argument under its parameter's name |
| Sessions.SectionOrdered | sessions/sess_mem.go:95-192 | Each section under the lock keeps the list ordered from newest to oldest access |
| Sessions.RunOrdered | sessions/sess_mem.go:95-192 | So does every interleaving of sections with a clock that does not run back |
| Sessions.CollectorStops | sessions/sess_mem.go:156-175 | Whenever the collector stops, nothing left in the list is expired |
| SessionRaces.CollectedExpired | sessions/sess_mem.go:156-175 | What the collector removes is expired at that moment exactly when no use since the look that found it expired came late enough |
| Sessions.UsedButCollected | sessions/sess_mem.go:163-170 | The failing family: a session used between the look and the removal is lost all the same |
| Sessions.RegenerateMatched | sessions/sess_mem.go:122-141 | Ids and list stay matched exactly when the regenerated id is new |
| Sessions.RegenerateKeeps | sessions/sess_mem.go:122-141 | The new id leads to the old session with its values, the old id to nothing, all others are untouched |
| Sessions.RegenerateEffect | sessions/sess_mem.go:122-141 | The regenerated session stands in front, the others in order; an unknown old id makes an empty session |
| Sessions.ReadEffect | sessions/sess_mem.go:95-109 | A first read puts an empty session of that id and time in front; any other touches the one there is |
| Sessions.TouchEffect | sessions/sess_mem.go:183-191 | A touched session has the new time, its values and the first place; all other ids keep theirs |
| Sessions.DropEffect | sessions/sess_mem.go:144-153 | Destroying takes out that id and its element, and nothing else |
| Sessions.SetEffect | sessions/sess_mem.go:35-41 | Setting a value changes that value of that session only |
| Sessions.SweepEffect | sessions/sess_mem.go:156-175 | Collecting keeps exactly the ids that are not expired, with their sessions |
| Sessions.StaleSeconds | sessions/sess_mem.go:163-166 | A session is stale exactly when more whole seconds, of 10^9 nanoseconds, have begun than it may live |
| Sessions.SweepSpec | sessions/sess_mem.go:156-175 | A collection that runs alone leaves exactly the elements that are not expired, although it stops early |
| Sessions.MatchedCount | sessions/sess_mem.go:178-180 | The list counts the live ids |
| Sessions.CallMatched | sessions/sess_mem.go:95-192 | Each whole call with fresh elements and ids keeps ids and list elements in one-to-one correspondence |
| Sessions.CallsMatched | sessions/sess_mem.go:95-192 | So does any run of whole calls, with the list ordered and counting the ids |
| Sessions.RacingReads | sessions/sess_mem.go:95-109 | Two racing first reads of one id break the correspondence |
| SessionRaces.SectionMatched | sessions/sess_mem.go:95-192 | A section under the lock keeps ids and elements in one-to-one correspondence exactly when its guard holds: an inserted id is free, a collected element that left the list has no id, a renamed one keeps to its own |
| SessionRaces.RunMatched | sessions/sess_mem.go:95-192 | Over every interleaving: the correspondence holds throughout exactly when each section meets its guard |
| SessionRaces.ReplacedOrphaned | sessions/sess_mem.go:163-170 | The collector's race: it takes the id of a session that was made anew under it, which leaves a live element no id leads to |
| MemSessions.MemProvider.SessionRead | sessions/sess_mem.go:95-109 | In place: an existing session is touched and moved to the front, a missing one is made |
| MemSessions.MemProvider.SessionUpdate | sessions/sess_mem.go:183-191 | In place: the access time and the move to the front |
| MemSessions.MemProvider.SessionRegenerate | sessions/sess_mem.go:122-141 | In place: the rename of the session and of its map entry |
| MemSessions.MemProvider.SessionDestroy | sessions/sess_mem.go:144-153 | In place: map entry and element are removed together |
| MemSessions.MemProvider.SessionGC | sessions/sess_mem.go:156-175 | In place: the loop is the whole sweep |
| MemSessions.MemProvider.SessionExist | sessions/sess_mem.go:112-119 | Whether the id is live |
| MemSessions.MemProvider.SessionAll | sessions/sess_mem.go:178-180 | The length of the list |
| Rooms.LeavesExactly | websocket/server.go:296-311 | The deletion loop removes every occurrence of an id from a room, and nothing else, without a crash, exactly under a condition on the room |
| Rooms.LeaveAllSpec | websocket/server.go:296-311 | In a consistent state leaving all rooms never crashes and takes the id out of each, the others in order |
| Rooms.DisconnectSpec | websocket/server.go:411-418 | A disconnected id is in no room and not in the list; all other members and connections stay, in order |
| Rooms.LeaveEffect | websocket/server.go:316-345 | Leaving a room changes no other room and no connection; the members are those before without the id, in order, and the room is gone exactly when none is left |
| Rooms.LeaveCrashes | websocket/server.go:316-345 | Leaving crashes exactly when a member leaves that is not connected |
| Rooms.LeaveAllCrashes | websocket/server.go:296-311 | Leaving all rooms crashes exactly when some room makes the deletion loop crash |
| Rooms.JoinEffect | websocket/server.go:281-293 | Joining changes no other room and no connection, and appends the id to the members there were |
| Rooms.ConnectEffect | websocket/server.go:88-115 | A connecting id leads to the new connection, in the old one's place if there is one; all other ids lead where they did |
| Rooms.CallExactly | websocket/server.go:219-345 | A call on a consistent state crashes nothing and keeps ids unique, rooms free of duplicates and of ids that are not connected, exactly when a connecting id is not in its own room and a joining one is connected and not in the room |
| Rooms.CallConsistent | websocket/server.go:219-345 | So a call is safe that connects new ids only, and joins connected ones that are not in the room |
| Rooms.RunExactly | websocket/server.go:219-418 | A run never crashes and is consistent throughout exactly when each call meets that condition |
| Rooms.RunConsistent | websocket/server.go:219-418 | So is any orderly run of calls |
| Rooms.TwiceJoined | websocket/server.go:298-306 | An id that joined a room twice is left behind in it, or crashes the server |
| RoomServer.Connections.Add | websocket/server.go:88-115 | Replacing, using spare capacity or growing: the same list in every case |
| RoomServer.Connections.Get | websocket/server.go:117-126 | The connection with the key, if any |
| RoomServer.Connections.Remove | websocket/server.go:132-147 | In place: the first connection with the key is gone, the rest in order |
| RoomServer.LeaveRoom | websocket/server.go:298-307 | In place: deleting while ranging over the old slice leaves the survivors, and crashes exactly when the reference says so |
| RoomServer.LeaveRooms | websocket/server.go:296-311 | In place over all rooms, in any order |
| RoomServer.TakeFirst | websocket/server.go:328-334 | In place: the first occurrence is gone |
| RoomServer.Server.HandleConnection | websocket/server.go:219-228 | The new connection is listed and joined to the room of its own id |
| RoomServer.Server.IsConnected | websocket/server.go:272-275 | Whether the id is in the list |
| RoomServer.Server.Join | websocket/server.go:281-293 | The id is appended to the room, made if missing |
| RoomServer.Server.Leave | websocket/server.go:316-345 | The first occurrence leaves, an empty room is deleted, and an unknown connection that left crashes |
| RoomServer.Server.LeaveAll | websocket/server.go:296-311 | The whole new state of all rooms |
| RoomServer.Server.Disconnect | websocket/server.go:411-431 | Rooms first, then the list; the connection is closed at most once |
| Ranges.ParseRange | core/router/fs.go:889-955 | The loop over the elements collects the ranges, stops at the first bad one, and reports no overlap |
| Ranges.HeaderParsed | core/router/fs.go:889-955 | Any list of well-formed specs with any optional white space gives in order what each selects; it fails exactly when some spec starts past the end and none selects |
| Ranges.SelectedBytes | core/router/fs.go:912-946 | A byte lies in a spec's range exactly when section 2.1 of RFC 7233 selects it, and ranges lie within the content |
| Ranges.PartBounds | core/router/fs.go:912-946 | The range of any element lies within the content exactly when it is no suffix of negative length |
| Ranges.HeaderBounds | core/router/fs.go:889-955 | So for all ranges of any header |
| Ranges.SumRangesSize | core/router/fs.go:979-984 | The loop adds the lengths in 64 bits |
| Decimal.WrapIs | core/router/fs.go:979-984 | A wrapped sum fits 64 bits and differs from the sum by a multiple of 2^64 |
| Ranges.SummedWraps | core/router/fs.go:979-984 | The sum of any ranges is their total, wrapped at 64 bits |
| Ranges.ServedExactly | core/router/fs.go:425-440 | Ranges are served exactly when together no longer than the content, if and only if wrapping does not change that comparison |
| Ranges.ServedWithin | core/router/fs.go:425-440 | It does not while count times size fits 64 bits |
| Ranges.NoHeader | core/router/fs.go:890-892 | Without a header there are no ranges and no error, so all of the content is served, for every size |
| Ranges.InvalidExactly | core/router/fs.go:893-907 | A header is refused exactly when it is not empty and lacks `bytes=` or has an element that is neither white space nor of the accepted form |
| Ranges.PartRefused | core/router/fs.go:899-947 | The accepted form, spelled out: a dash with numbers of 64 bits around it, an end no smaller than its start, or no end, or no start |
| Ranges.WrongOrder | core/router/fs.go:937-941 | Positions in the wrong order, like `5-2`, are refused |
| Ranges.DashMissing | core/router/fs.go:904-907 | An element without a dash, like `abc`, is refused |
| Ranges.SumWraps | core/router/fs.go:434-440 | Four times the whole of 2^62 bytes is served, the sum being 0 |
| Base64.DecodeEncode | sessions/sess_utils.go:194-208 | Decoding undoes encoding on all byte strings, and encoded text has no bar |
| Base64.EncodeNumbers | sessions/sess_utils.go:194-198 | Three bytes become the four symbols, of section 5 of RFC 4648, of their common number |
| Base64.DecodeExactly | sessions/sess_utils.go:201-208 | A text decodes exactly when, line breaks aside, it is whole groups of symbols with padding at the end only |
| Base64.BreakSkipped | sessions/sess_utils.go:201-208 | A line break anywhere in a text changes nothing |
| Cookie.XorKeyStream | sessions/sess_utils.go:94-96 | In place: every byte of the buffer is exclusive-ored with its key byte |
| Cookie.Encrypt | sessions/sess_utils.go:88-98 | The vector, then the value encrypted in place |
| Cookie.Decrypt | sessions/sess_utils.go:104-117 | What follows the vector, decrypted in place, and an error when nothing follows |
| Cookie.XoredTwice | sessions/sess_utils.go:88-117 | Encryption is its own inverse under one key stream |
| Cookie.XorBits | sessions/sess_utils.go:94-95 | A bit of the result is set exactly where the bits of the two operands differ |
| Cookie.XoredBits | sessions/sess_utils.go:94-97 | Each encrypted byte differs from the plain one in exactly the bits that its key byte sets |
| Cookie.EncodedIs | sessions/sess_utils.go:119-142 | A cookie is the encoding of date, encoded vector and encrypted payload, and signature of name, date and body, between bars |
| Cookie.RoundTrip | sessions/sess_utils.go:119-189 | For any name, key and MAC bytes, a cookie decodes to its payload inside the lifetime, and to the right error outside it or for an empty payload |
| Cookie.AcceptedGenuine | sessions/sess_utils.go:144-189 | A value is accepted exactly when it splits into date, body and signature with a matching MAC, a date within the lifetime and a body that decrypts |
| Cookie.DecodedWhole | sessions/sess_utils.go:150-189 | What any value of three parts decodes to: the first thing wrong with it, in the order signature, date, lifetime, body, or its payload |
| Cookie.MalformedExactly | sessions/sess_utils.go:145-154 | A value is malformed exactly when it is no encoding, or of less than three parts |
| Chain.Context.HandlerIndex | context/context.go:911-918 | The index moves when it is in range, and is returned |
| Chain.Context.SkipNext | context/context.go:957-959 | The index moves over the next handler, if there is one |
| Chain.Context.StopExecution | context/context.go:964-966 | The index is the stopped one |
| Chain.Context.CallNext | context/context.go:757-765 | Runs the next handler and nothing when stopped or at the end |
| Chain.Context.Do | context/context.go:878-881 | For every chain that ends: runs the first handler; index and handlers entered are those of the reference run with calls nested no deeper than there are handlers |
| Chain.EndsExactly | context/context.go:757-765 | Any script over any handlers ends exactly when it does with calls nested no deeper than there are handlers |
| Chain.NextEnters | context/context.go:757-765 | Where each handler calls the next or does nothing, the ones behind are entered in turn, each once, up to the first that does nothing |
| Chain.SkipsOver | context/context.go:957-959 | After any number of skips the next call enters the handler that many places further on |
| Chain.StoppedEnters | context/context.go:757-765 | A stopped chain enters nothing exactly when the script is quiet: no Next comes after a Skip or more since the last stop, but fewer than there are handlers |
| Chain.StopEnds | context/context.go:961-972 | After a stop, by itself or by a handler it called, a script enters no further handler exactly when the rest of it is quiet |
| Chain.PrudentNeverRevives | context/context.go:957-959 | Scripts that skip only before they stop or call the next handler never revive the chain |
| Chain.PrudentEnds | context/context.go:757-765 | A chain of such handlers ends, enters handlers in strictly increasing order, and keeps its index in range |
| Chain.PrudentExactly | context/context.go:957-966 | These are exactly the scripts that revive no chain of such handlers behind them |
| Chain.RevivedForever | context/context.go:957-966 | A handler that stops, skips and calls the next one calls itself for ever |
| Builder.Route.BuildHandlers | core/router/route.go:97-107 | Begin handlers in front, done handlers behind, both lists emptied |
| Builder.APIBuilder.Use | core/router/api_builder.go:299-301 | Only later routes get the handlers |
| Builder.APIBuilder.UseGlobal | core/router/api_builder.go:320-326 | Every route so far and every later one gets the handlers |
| Builder.APIBuilder.Done | core/router/api_builder.go:305-311 | The same for the handlers that run last |
| Builder.APIBuilder.Handle | core/router/api_builder.go:135-168 | The new route's handlers, its macro check in front |
| Builder.APIBuilder.Build | core/router/handler.go:115-132 | Every route is built |
| Builder.BuiltChains | core/router/api_builder.go:149-170 | After any calls and a build each route's chain is: globals added after it, its check, globals added before it, handlers used so far, its own, done handlers before it, done handlers after it, each in call order |
| Builder.EveryRoute | core/router/api_builder.go:163-168 | Every route of the repository was made by one of the calls |
| Builder.BuiltTwice | core/router/route.go:97-107 | Building again changes nothing |
| Message.Serialize | websocket/message.go:81-119 | Prefix, event, type and data, separated |
| Message.DeserializeSerialized | websocket/message.go:126-149 | Deserializing under its event gives back the same typed data, whatever bytes event and data hold |
| Message.WireForm | websocket/message.go:28-35 | The message as clients know it: prefix, event, the digit 0 to 4 of the type, data |
| Message.WireRead | websocket/message.go:126-149 | What any message of that form is read as, by its digit, and which data is refused |
| Message.BoolTexts | websocket/message.go:138-139 | The twelve texts that stand for truth values |
| Message.CrashExactly | websocket/message.go:127-132 | Reading runs off the message exactly when it ends before the type, or right behind a digit there |
| Message.EventOf | websocket/message.go:152-159 | The event of any message: none when it is too short, what stands up to the first `;`, and a crash without one |
| Message.EventSerialized | websocket/message.go:152-159 | The event read from a message is the whole event exactly when that has no `;` |
| Rotation.KeyRing.Tick | core/host/supervisor.go:396-413 | In place: extend while there is room, shift from the back, the new key in front |
| Rotation.PublishedNewest | core/host/supervisor.go:396-415 | After any ticks the ring is the newest five issues, newest first, a tick without entropy repeating the key before |
| Rotation.PublishedFive | core/host/supervisor.go:396-415 | With entropy for distinct keys, the key of a tick is published exactly after that tick and the four that follow |

## Left out

- RouteLookup.LookupApart: only for tables whose patterns do not clash; `RouteLookup.LookupExact` is about all of them.
- RouteLookup.LookupExact: only for tables without a pattern that ends in `/`, which is what path cleaning leaves of routes; a node that ends in `/` takes any rest of a path as one more value.
- Router.Nodes.Add: its table theorem is about patterns without `*`. Named wildcards, whatever they stand behind, are in `RouteWild.RunMixed` and `RouteWild.LookupMixed`, on the values the class methods compute, for runs in which only wildcards that take every path come before the first plain route; of others there are the single steps `RouteWild.InsertBehindWild` and `RouteWild.PartedServes`.
- RouteWild.LookupMixed: each offered pattern without parameters has handlers; the order among the wildcards is what the unspecified sort leaves.
- Reverse.ReverseFinds: parameters take whole segments, and no literal and no argument but the last holds `%v`; a mark in an argument would take the next argument.
- Serving.TemplateServes: `path.Clean` is not part of this model, so the theorem is about templates whose compiled path needs no cleaning.
- MemStore.Store.Get: the copies made of immutable slices and maps are left out.
- MemSessions.MemProvider.SessionGC: one clock reading for the whole loop, and each call with its background update alone; the interleavings, each section with its own clock reading, are in `Sessions.RunOrdered`. Unix seconds plus lifetime are not wrapped at 64 bits.
- RoomServer.Server.LeaveAll: callbacks do nothing to the server; the nil dereference for an unknown connection is a crash of the model.
- RoomServer.Server.Disconnect: the ping timer and the network are not part of this model.
- Ranges.ParseRange: white space is the one-byte white space of ASCII. Writing the parts, MIME sizes and the entity tag conditions are left out.
- Cookie.RoundTrip: gob is left out, the payload is its bytes; AES in counter mode and HMAC are functions of their inputs.
- Message.DeserializeSerialized: JSON data is its text; marshalling is left out.
- Builder.APIBuilder.Handle: slices of handlers are values, so the backing array that a built chain shares with its emptied begin list is not modelled, nor handlers registered after a build; child parties hold snapshots and are left out.
- Chain.Context.Do: handlers are scripts of Next, Skip and StopExecution; what else they do is left out.
- Macro functions and their evaluators (`convertTmplToHandler`), reflection and regular expressions.
- Builder.APIBuilder.Build: keeps the routes in registration order; the code first sorts the repository's slice, with a comparator that is no strict weak order over mixed methods.
- The response cache, transactions, recorders, gzip, views, file and database sessions, listeners, TLS set-up and proxying.
