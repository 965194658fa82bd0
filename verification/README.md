# Cloudgizer: a verified model

Cloudgizer compiles `.v` markup to C (`cld.c`) and links the result with a run-time library (`cldrt.c`,
`cldrtc.c`, `cldmem.c`, `mys.c`). This project models the text rewriting, buffer arithmetic and small persistent
state machines of both, and proves what they are for.

The source works in place on NUL-terminated buffers and long-lived structures, so the model does too: string
routines are methods over `array<char>`, the output buffer, the allocator, the database connection and the query
stack are classes with the source's fields. Each method is proved against a function on values, and the theorems
are about these functions and over whole runs.

| module | what it models |
|---|---|
| `CStrings`, `CharMaps` | counting, replacing, trimming in C buffers; escaping as one pass over the characters |
| `Codec`, `FormInput`, `FormReading`, `FormOverrun` | web and URL encoding; building, flattening in place and splitting form input; what any URL is read as; when its chunks run out |
| `Subst` | replacement that first grows its block |
| `SqlLexer`, `SqlFill` | SQL literals; filling a statement template with arguments |
| `ShardMatch`, `QueryText`, `QueryRewrite` | query templates as texts: shard matching, the recursive reading of any text, and the worklist that rewrites it in place |
| `QueryTree`, `QueryExpand`, `QueryMeaning`, `QueryTemplates` | query templates as trees of fragments, shards and parameters: their expansion, what it means, and that well-formed texts are read as their trees |
| `QueryProper`, `QueryUses` | which texts are templates; which templates are queries, and when shards agree |
| `SqlPipeline` | both ends together: from the template in the source to the tokens the database reads |
| `OutputBuffer`, `OutputMeaning` | buffered output shared by the web client and nested write-strings; what is printed where |
| `Allocator`, `AllocatorSlots` | the request memory with its table of tagged blocks |
| `ParamList`, `ParamSpacing` | parameter lists: those that come back as written, whitespace, errors |
| `FreeText`, `TextRuns` | text between markups, and how its lines are continued |
| `QueryBlocks`, `QueryHistory` | running queries and their loops; which statements are accepted |
| `DbConnection`, `DbRequests` | connection and transaction state against a server that may fail at any request; what is sent |
| `Wrappers` | `Option` |

`requires` clauses are what the code takes for granted: search strings are not empty, strings hold no NUL, every
`%` of form input is followed by two hex digits, SQL arguments are shorter than `CLD_MAX_SIZE_OF_URL`, block sizes
fit an `int`. An error report that ends the program is a failing result.

## What the proofs say about the code

Where a promise does not hold of the code, the exact condition is proved:

- The run-time checks of a statement template (an even number of quotes, every `%s` quoted) do not make filling
  safe: `''%s''` passes them (`SqlFill.QuoteChecksAreNotEnough`). Filling keeps the tokens of a template for all
  accepted arguments if and only if each placeholder is scanned as one whole literal (`SqlFill.FillingSafeIff`).
- `cld_subst` reports its internal error for some input if and only if `all` is neither 0 nor 1
  (`Subst.InternalErrorIff`): the size is computed for one replacement and all are made. For each single call
  `Subst.Subst` states when it happens.
- `cld_get_input` goes on behind its terminators for some URLs, such as `a=b=c=d=e` (`FormOverrun.RunsOutExample`):
  if and only if its chunks are even in number, make fewer pairs than there are `=` signs, and pass the checks of
  names up to there (`FormOverrun.RunsOutIff`). It never does when no part between ampersands holds two `=`
  (`FormOverrun.OneEachIsSafe`).
- The error page ends up escaped if and only if the escape fits or nothing is to be escaped
  (`CharMaps.HtmlBufferIff`); otherwise, as for ampersands in more than a fifth of the buffer
  (`CharMaps.AmpersandsOverflow`), it is partly escaped.
- Not every text that the compiler accepts as a query is a template. In `<?shard#a?><?x<?end-shard?>y?>` the end of
  the shard is inside the parameter (`QueryProper.AcceptedWithoutTree`), and in `?><?x?>` a closing has no opening,
  which the compiler notices only behind the last tag (`QueryProper.AcceptedUnopened`). An accepted text is the print
  of a well-formed template if and only if it is proper (`QueryProper.AcceptedIff`): no closing stands in front of a
  tag, no opening inside one, no tag is empty or a stray shard end, every shard ends where its body is proper, and
  no two halves of a tag meet where tags are taken out. The same holds for the trees in which every fragment has the
  tree of its text, with the fragments proper where they are referred to. A proper text is compiled to the SQL and
  the parameters of its tree (`QueryProper.ProperCompiles`); `QueryRewrite.QueryTables.NewQuery` covers all texts.
- A parameter list comes back as it was written if and only if no quoted value holds an escaped comma and no
  empty unquoted parameter ends a list of two or more (`ParamList.RoundTripIff`; `ParamList.LostInParsing` has a list
  of each kind).
- A query that is redefined while active leaves the query stack wrong, and nothing else does
  (`QueryBlocks.EffectKeeps`): after every statement of an accepted file the stack is right if and only if none does so
  (`QueryBlocks.EffectsKeep`). A file that runs a query again inside itself is accepted, with its loop emitted inside
  its own (`QueryBlocks.RedefinedInside`).
- A line of text is taken for C code if a semicolon ends it or is followed only by quotes, backslashes and percent
  signs, because those do not count as the last character printed (`FreeText.CompileText`). Text is lost if and only
  if the last line is to be continued and leaves something to print (`FreeText.TextIsLostIff`, `FreeText.LostLine`).
- A closed write-string is trimmed if and only if something was still in the buffer (`OutputBuffer.Output.EndWrite`),
  so the moment of a flush can show in it (`OutputBuffer.UntrimmedClose`), in whitespace at its end and nowhere else
  (`OutputBuffer.FlushesUnseen`).
- A request fails if and only if a step of its simple form does (`OutputBuffer.Page`): text for the web is flushed
  before the header, a sixth write-string is opened, none is open to be closed, or the request ends inside one without
  having printed anything. Once the header is sent first, pairing the write-strings is enough, and necessary for a
  program that leaves none open (`OutputBuffer.HeaderFirst`).
- A transaction that ends in a "commit" was ended by a commit of the program (`DbRequests.CommittedByCommit`) unless the
  program sends "commit" as a statement, which does commit (`DbRequests.CommittedByHand`).
- The branch that refuses to reconnect within a transaction cannot be reached
  (`DbConnection.Db.GetConnection` fails only when the server does).
- The size check of a block is right exactly for sizes that fit an `int` (`Allocator.SizeAsInt`).
- The comment of `cld_is_valid_param_name` asks that names do not start with a digit; the code asks that they
  start with a letter, so a leading underscore is refused too (`FormInput.IsValidParamName`).

## Model

| member | source | states |
|---|---|---|
| CStrings.CountSubstring | cldrtc.c:336-348 | the loop counts the leftmost non-overlapping occurrences |
| CStrings.ReplaceString | cldrtc.c:359-405 | in place, the text becomes exactly the leftmost replacements that fit in `strsize`; -1 exactly when one does not; `last` is just past the last inserted text |
| CStrings.ReplaceNAll | cldrtc.c:359-405 | making as many replacements as are counted is replacing all, and the length grows by the difference for each |
| CStrings.ReplaceProgress | cldrtc.c:372-404 | after any number of replacements, the text is what is done so far followed by the replacement of the rest: inserted text is not searched again |
| CStrings.WholeReplace | cldrtc.c:382-387 | replacing all succeeds exactly when the final text (for a shrinking replacement the first intermediate one) fits, with the result of one functional replacement |
| CStrings.TrimBuffer | cldrtc.c:415-436 | the in-place trim leaves the trimmed text and returns its length |
| CStrings.TrimUnique | cldrtc.c:409-436 | the trimmed text is the only block with whitespace all around and none at its ends |
| CharMaps.ReplaceIsMap | cldrtc.c:359-405 | replacing one character everywhere is a one-pass character map |
| CharMaps.SqlEscapeIsOnePass | cldrt.c:292-305 | doubling backslashes and then quotes is one pass: no inserted character is escaped again |
| CharMaps.HtmlEscapeIsOnePass | cldrt.c:822-825 | the four replacements of the error page are one pass over the text |
| CharMaps.TrimCommutes | cldrt.c:292-325 | escaping and trimming commute |
| CharMaps.HtmlBufferIff | cldrt.c:822-825 | the same for the texts after each replacement, whether all of it fitted or not |
| CharMaps.AmpersandsOverflow | cldrt.c:822-825 | ampersands that fit the buffer and whose escape does not: what the buffer holds then is not their escape |
| CharMaps.EscapeHtml | cldrt.c:822-825 | four in-place replacements leave the one-pass escape exactly when that fits or there is nothing to escape |
| CharMaps.EscapeIsShown | cldrt.c:822-825 | a page that holds the escape shows the text as it was |
| CharMaps.HtmlSafe | cldrt.c:822-825 | no markup of the text is left: every angle bracket and ampersand of the escape is part of an entity or a line break |
| Codec.EncodedSize | cld.h:125 | an encoding never exceeds 6n bytes and a NUL |
| Codec.EncodeBase | cldrtc.c:691-752 | writes the encoding and its NUL at the given place, changing nothing else, and returns its length |
| Codec.Decode | cldrt.c:867-1019 | the in-place decoder computes the decoding of the text, never longer than it |
| Codec.DecodeInvertsEncode | cldrt.c:867-1019 | decoding inverts encoding for every string in both modes |
| Codec.EncodeInjective | cldrtc.c:691-752 | different strings have different encodings |
| Codec.WebSafe | cldrtc.c:704-717 | a web encoding holds no angle bracket and no quote, and each ampersand in it begins one of the five entities |
| Codec.UrlSafe | cldrtc.c:720-745 | a URL encoding holds no reserved character but percent signs, each before the two hex digits of a reserved character |
| Codec.WrittenInPlace | cldrtc.c:704-745 | what stands for each character, and where: the entity or the escape of a reserved one, any other as itself |
| Codec.UrlHitIs | cldrt.c:867-1019 | decoding a URL takes exactly the escapes of reserved characters for what they stand for, and all else as it is |
| Codec.WebHitIs | cldrt.c:867-1019 | decoding for the web does so with the five entities |
| FormInput.IsValidParamName | cldrtc.c:471-484 | exactly the names that start with a letter and go on with letters, digits and underscores |
| FormInput.FlattenInPlace | cldrt.c:1626-1662 | the in-place pass leaves the zero-delimited chunks, counts the parameters, and fails exactly on an ampersand without a value before it |
| FormInput.SplitParams | cldrt.c:1668-1699 | walking the chunks yields the specified names and trimmed values or the first error |
| FormInput.GetInput | cldrt.c:1623-1699 | both phases together refine the specified parse of the URL |
| FormInput.BuildUrl | cldrt.c:1505-1528 | the fields printed one after the other, without the last ampersand, exactly when they fit the buffer |
| FormInput.UrlIsBuilt | cldrt.c:1505-1528 | the URL built from the back is the one read from the front |
| FormInput.FlattenUrl | cldrt.c:1626-1662 | a built URL flattens to the names and the original values as chunks, one parameter for each field |
| FormInput.SplitChunks | cldrt.c:1668-1699 | these chunks split into the same names in order and the trimmed values |
| FormInput.FormRoundTrip | cldrt.c:1505-1699 | building a URL from valid fields and parsing it gives the same names in order and the trimmed values |
| FormOverrun.RunsOut | cldrt.c:1668-1699 | on chunks: splitting runs out exactly when they are even in number, make fewer pairs than asked for, and no name among them is refused before |
| FormOverrun.FlattenCounts | cldrt.c:1626-1662 | the pass counts the `=` signs, and leaves one NUL for each `=`, each `&` and each `%00` |
| FormOverrun.RunsOutIff | cldrt.c:1626-1699 | the same on the text of any URL, counting its signs |
| FormOverrun.OneEachIsSafe | cldrt.c:1626-1699 | a URL with at most one `=` between ampersands never runs out |
| FormOverrun.RunsOutExample | cldrt.c:1668-1699 | `a=b=c=d=e` runs out |
| FormReading.EverySpellingIsRead | cldrt.c:1623-1699 | fields are read back however they are written: spaces as plus signs, any character as a percent escape with digits in either case |
| FormReading.LoneIff | cldrt.c:1640-1650 | a URL is refused for an ampersand without a value exactly when one has no `=` back to the one before |
| FormReading.SplitIs | cldrt.c:1668-1699 | valid names, different where that is checked, give the pairs of chunks as parameters, and otherwise the first that is not decides the error |
| Subst.Subst | cldrt.c:3512-3587 | for every call: the internal error exactly under the stated overrun, otherwise the wanted replacements and the size of the block |
| Subst.InternalErrorIff | cldrt.c:3578-3584 | the internal error can be reached exactly when `all` is neither 0 nor 1 |
| SqlLexer.LexEscaped | cldrt.c:292-305 | inside a literal, escaped text adds exactly the original text and stays inside |
| SqlLexer.WholeFill | cldrt.c:223-344 | with whole placeholders every value is read back as one literal equal to it, whatever it contains |
| SqlLexer.BrokenFill | cldrt.c:242-265 | for placeholders that are not whole, values that change the tokens are found |
| SqlLexer.FillKeepsTokensIff | cldrt.c:223-344 | filling keeps the tokens for all values exactly when the placeholders are whole literals |
| SqlFill.EscapeArg | cldrt.c:291-325 | an argument is accepted exactly when its escape fits the buffer; then it is escaped and trimmed as asked |
| SqlFill.TrimInPlace | cldrt.c:313-325 | the pointer-moving trim computes the trimmed text |
| SqlFill.MakeSQL | cldrt.c:223-344 | accepts exactly under the stated conditions, and then leaves the template's segments with the escaped non-null arguments between them, in order |
| SqlFill.AcceptedIff | cldrt.c:223-344 | told by characters: even quotes, every placeholder quoted, an argument for each, each fitting with one more character for every quote and backslash, and every partly filled statement fitting |
| SqlFill.NonNullConcat | cldrt.c:272-284 | NULL arguments are passed over, the others taken in order |
| SqlFill.FillIsWeave | cldrt.c:327-333 | filling from the left without rescanning is weaving the bodies between the segments |
| SqlFill.TemplateIsWeave | cldrt.c:261-265 | the template is its own segments with `%s` between them |
| SqlFill.MeantIs | cldrt.c:306-325 | the value meant is the argument, trimmed only if that is asked for |
| SqlFill.FilledMeaning | cldrt.c:223-344 | an accepted call on whole placeholders: same tokens as the template, the i-th placeholder reading as the i-th argument, trimmed if asked |
| SqlFill.FillingSafeIff | cldrt.c:242-265 | given the run-time checks, all accepted calls keep the tokens exactly when the placeholders are whole |
| SqlFill.QuoteChecksAreNotEnough | cldrt.c:242-265 | a template that passes the checks and has no whole placeholder |
| ShardMatch.MatchIffFirstReturn | cld.c:1393-1468 | the matching end is exactly the first at which the depth returns to zero, all depths before being positive and within the limit |
| ShardMatch.FindShardEnd | cld.c:1390-1463 | the loop with its two stacks finds that end, for every text |
| QueryTree.MatchOver | cld.c:1407-1461 | matching passes over any printed template, and fails exactly when that nests too deep |
| QueryText.ReadConcat | cld.c:1541-1556 | reading a text that can stand in front of another, and then that, is reading both together: splicing a fragment's text in is reading it on its own |
| QueryText.ContainedConcat | cld.c:1541-1556 | in front of a text that can be spliced in, or expanded, so can both together |
| QueryText.TagsConcat | cld.c:1541-1556 | the tags of both add up, which bounds the rounds although the text may grow |
| QueryRewrite.ShardTurn | cld.c:1384-1520 | cutting a shard's tags out of the buffer keeps what comes of it, with one tag less, or nothing comes of it |
| QueryRewrite.FragmentTurn | cld.c:1533-1558 | so does splicing a fragment in |
| QueryRewrite.ParamTurn | cld.c:1566-1584 | so does putting a placeholder in, with the parameter added |
| QueryRewrite.RemoveStep | cld.c:499-514 | going on inside the placeholder that was just put in changes nothing |
| QueryRewrite.QueryTables.FindQueryFragment | cld.c:453-465 | the first fragment of that name |
| QueryRewrite.QueryTables.AddQueryFragment | cld.c:472-489 | a new name is added at the end within the limit, and nothing else changes |
| QueryRewrite.QueryTables.FindQueryShard | cld.c:524-540 | the first shard of that name |
| QueryRewrite.QueryTables.AddQueryShard | cld.c:546-585 | a new shard is added, or a declared one gets its text; anything else is refused |
| QueryExpand.FirstFragment | cld.c:453-465 | the fragment that is found is the first of that name, and none only if there is none |
| QueryExpand.FirstShard | cld.c:524-540 | the same for shards |
| QueryRewrite.QueryTables.RemoveSqlParams | cld.c:496-516 | the in-place loop turns every tag into a placeholder, and fails exactly when one is not closed |
| QueryRewrite.QueryTables.CheckShard | cld.c:1474-1510 | the first text used defines the shard, every later one must match it, up to parameters for a soft shard |
| QueryRewrite.QueryTables.ShardAt | cld.c:1384-1520 | the text up to the matching end is checked, and exactly both tags are cut out |
| QueryRewrite.QueryTables.FragmentAt | cld.c:1533-1558 | a new buffer with the text of the fragment of that name in place of its tag; fails exactly when there is none |
| QueryRewrite.QueryTables.ParamAt | cld.c:1566-1580 | `'%s'` takes the place of the tag, nothing else changes |
| QueryRewrite.QueryTables.Round | cld.c:1341-1584 | one round of the worklist keeps what comes of the whole text, leaves fewer tags, and fails only when nothing comes of it |
| QueryRewrite.QueryTables.TagAt | cld.c:1361-1584 | so does what is done with one tag, whichever kind it is |
| QueryExpand.ExpandFirst | cld.c:1512-1584 | putting the content of the first tag in front of the rest keeps the expansion and leaves one tag less |
| QueryRewrite.QueryTables.NewQuery | cld.c:1320-1636 | for every text, well-formed or not, whose fragments can be spliced in where they are met: the in-place worklist ends, and makes of it what the recursive reading makes, or fails exactly when that does |
| QueryMeaning.ExpandMeaning | cld.c:1341-1587 | expansion succeeds exactly when fragments are defined, nesting and parameters are within limits and shard uses match; it then appends the SQL and the parameters of the tree |
| QueryMeaning.NothingLost | cld.c:1565-1600 | as many `%s` as parameters means all are quoted, and putting the parameters back recovers the expanded template |
| QueryMeaning.CompiledMeaning | cld.c:1589-1634 | every compiled query has the SQL and the de-escaped parameters of its tree, nothing being lost |
| QueryUses.CompiledIff | cld.c:1320-1636 | exactly when a template is a query: fragments defined, nesting within the limit, uses of shards in agreement, fewer than 200 parameters which are all its placeholders, no semicolon at the end |
| QueryUses.UsesIff | cld.c:1474-1510 | over all uses of all shards: each agrees with the declared text of its shard, or else with that of the first use, wholly or, for a soft shard, up to what is in its tags |
| QueryUses.SoftAgree | cld.c:496-516 | texts of a soft shard agree exactly when they are the same but for what is in their tags |
| QueryUses.DeEscapedIs | cld.c:1625-1634 | each parameter is de-escaped by itself |
| QueryUses.QuotesComeBack | cld.c:1625-1634 | a parameter whose quotes were escaped comes back |
| QueryTemplates.ReadTree | cld.c:1341-1587 | a well-formed template with acyclic fragments is read as its tree is expanded |
| QueryTemplates.TreeCompiles | cld.c:1320-1636 | so new_query makes of its text the compiled query of its tree |
| QueryProper.TreeOfIs | cld.c:1341-1587 | a proper text with acyclic fragments has a finite tree that prints it, is well-formed and has the trees of its fragments in it, so expansion terminates |
| QueryProper.TreeIsProper | cld.c:1341-1587 | the print of every such tree is a proper text, whatever it stands in front of |
| QueryProper.ProperIff | cld.c:1341-1587 | so a text has such a tree exactly when it is proper |
| QueryProper.TextIff | cld.c:1341-1587 | a text is the print of a well-formed template exactly when it is proper, whatever the fragments are |
| QueryProper.AcceptedIff | cld.c:1320-1587 | which accepted texts are prints of well-formed templates, and which have the trees of their fragments: exactly the proper ones |
| QueryProper.ProperContained | cld.c:1533-1558 | a text that is proper where it stands can be spliced in there |
| QueryProper.ProperCompiles | cld.c:1320-1636 | new_query can be run on every proper text, and compiles it to the SQL and the parameters of its tree; putting these back recovers the text with its fragments put in |
| QueryProper.AcceptedWithoutTree | cld.c:1384-1587 | a text that new_query accepts, with the end of a shard inside a parameter, and no well-formed template prints |
| QueryProper.AcceptedUnopened | cld.c:1347-1356 | another one, with a closing in front of the first tag |
| QueryProper.OnlyFragment | cld.c:1533-1558 | a query that refers to the only fragment of its table |
| SqlPipeline.FillLeaves | cldrt.c:223-344 | filling compiled SQL puts the bodies exactly in the places of the parameters |
| SqlPipeline.PipelineMeaning | cld.c:1320-1636 | compile time and run time together: the statement is the expanded template with the quoted arguments in their places, and with whole placeholders the database reads the i-th argument there |
| OutputBuffer.NestingIsolates | cldrt.c:87-142 | what is printed inside a write-string, with all that is nested in it, reaches neither the web nor the strings around |
| OutputBuffer.FlushesUnseen | cldrt.c:2335-2463 | wherever a program flushes and whatever is pending, all targets get the same text, and closed strings differ at most in whitespace at their ends |
| OutputBuffer.UntrimmedClose | cldrt.c:2431-2435 | a string that keeps its blank because of a flush before its close |
| OutputBuffer.Output.Flush | cldrt.c:2342-2463 | apart from the trim at a close, a flush changes nothing in what was printed to any target |
| OutputBuffer.Output.Grow | cldrt.c:2516-2521 | growing the buffer keeps what is pending |
| OutputBuffer.Output.ValidateOutput | cldrt.c:2554-2584 | makes a buffer and flushes a full one without changing what was printed |
| OutputBuffer.Output.Puts | cldrt.c:2495-2534 | prints exactly the encoded text to the active target, or nothing when output is disabled |
| OutputBuffer.Output.PutsFinal | cldrt.c:2666-2701 | prints exactly its text, growing the buffer as needed |
| OutputBuffer.Output.Printf | cldrt.c:2594-2650 | printing, taking back and printing the encoding is printing the encoding |
| OutputBuffer.Output.BeginWrite | cldrt.c:116-140 | opens an empty target on top, after what is pending went to the one before; fails exactly at five levels or for a missing header |
| OutputBuffer.Output.Perform | cldrt.c:87-142 | every step does to all targets, and to what is pending, what it does to the simple form, and hands a closed string back with its text; it fails exactly for a flush without the header, a sixth level or an unopened string |
| OutputBuffer.Output.EndWrite | cldrt.c:92-114 | the closed string is all that was printed to it, trimmed at the end only if something was pending, and untouched if nothing was printed |
| OutputBuffer.Page | cldrt.c:2342-2463 | over every program, with output disabled or not: the web client and every string that was written receive exactly what the simple form says; it fails exactly when a step of that does |
| OutputBuffer.PairedIff | cldrt.c:87-142 | once nothing can be flushed too early, a program succeeds and leaves no write-string open exactly when it pairs them |
| OutputBuffer.HeaderFirst | cldrt.c:2335-2463 | so it is for every program that sends the header first or prints nothing to the web |
| OutputMeaning.LevelGrows | cldrt.c:2342-2463 | any balanced part of a program adds to the text of its level exactly what it prints there, and leaves all levels below as they are |
| OutputMeaning.WriteString | cldrt.c:87-142 | a write-string with anything balanced in it: its string is what is printed directly inside, but for whitespace at its end, and what it was before when that is nothing; all else is as before |
| OutputMeaning.PageText | cldrt.c:2342-2463 | the web client gets exactly what is printed outside write-strings |
| OutputMeaning.HeaderMissing | cldrt.c:2447 | without a header a program succeeds and leaves nothing open exactly when it pairs its write-strings and prints nothing to the web |
| OutputMeaning.WaitsForHeader | cldrt.c:2554-2584 | text for the web that is printed before the header waits for it, if it is shorter than 128K |
| OutputMeaning.BehindHeader | cldrt.c:2335-2463 | behind the header it succeeds exactly when it opens and closes write-strings as it may, and has printed something if it ends inside one |
| Allocator.BytesRead | cldmem.c:122-131 | the four bytes written for a number read back as it, modulo 2^32 |
| Allocator.SizeAsInt | cldmem.c:250 | the size is seen right exactly when it fits an int |
| Allocator.LinkedAdd | cldmem.c:97-112 | a new block in a new slot keeps the cross-reference of slots and blocks |
| Allocator.LinkedDrop | cldmem.c:284-307 | clearing a block's own slot keeps it for all others |
| Allocator.VmSet | cldmem.c:122-131 | the header holds the magic bytes, the slot and the size, and nothing behind it changes |
| Allocator.Memory.AddMem | cldmem.c:97-112 | the table is the old one with the block at its end, and has room for another |
| Allocator.Memory.Malloc | cldmem.c:142-156 | a new block of the requested size in the next slot, all others as before |
| Allocator.Memory.Calloc | cldmem.c:162-174 | the same, all requested bytes zero |
| Allocator.Memory.CheckMemory | cldmem.c:210-267 | passes exactly when magic, guard and cross-reference agree, so always on an outstanding block |
| Allocator.Memory.ClientWrite | cldmem.c:210-267 | writes inside the requested size never disturb what the check relies on |
| Allocator.Memory.Realloc | cldmem.c:273-294 | always a new slot, the old one empty, the common bytes kept, and the check before it never fails |
| Allocator.Memory.Free | cldmem.c:300-309 | exactly that block is given back and its slot cleared; NULL and the empty string are left alone |
| Allocator.Memory.CheckMem | cldmem.c:358-373 | every outstanding block passes |
| Allocator.Memory.CldDone | cldmem.c:333-349 | exactly the outstanding blocks are given back, each once |
| Allocator.Memory.MemoryInit | cldmem.c:78-88 | a request starts with nothing outstanding |
| Allocator.GaveBack | cldmem.c:333-349 | if everything taken was taken once and is given back in the end, what was given back last is what was outstanding |
| Allocator.Memory.Request | cldmem.c:78-373 | after any steps of a client, the slots hold the blocks it was given and has not given back since, with the sizes it asked for |
| Allocator.Session | cldmem.c:78-373 | over any run of requests: no check ever fails, exactly the blocks that the requests ask for are taken, and each is given back exactly once |
| AllocatorSlots.SlotIs | cldmem.c:97-309 | each allocation and resizing takes the next slot with a block 17 bytes larger than asked for, which is there until a later step names the slot to free or resize it |
| ParamList.FindUnescapedChars | cld.c:1014-1035 | the first listed character without a backslash before it, or the end |
| ParamList.StoreParam | cld.c:794-814 | trimming, de-escaping and unquoting in the buffer give the specified parameter |
| ParamList.ParseParamList | cld.c:719-822 | the loop stores the specified parameters or reports the first error |
| ParamList.DeescapeEscaped | cld.c:798-800 | de-escaping undoes the escape of commas in any text |
| ParamList.StoredPrinted | cld.c:794-814 | a parameter that was written down is stored as it was, quoted ones with escaped commas de-escaped |
| ParamList.ParsePrinted | cld.c:719-822 | every printable list parses to its parameters in order, an empty unquoted one at the end of a longer list being dropped |
| ParamList.RoundTripIff | cld.c:719-822 | a printable list, behind anything that does not end in a backslash, comes back exactly when no quoted value holds an escaped comma and no empty unquoted parameter ends a longer list |
| ParamList.LostInParsing | cld.c:719-822 | a quoted value with an escaped comma and a list with an empty last parameter, each coming back as another list |
| ParamSpacing.SpacedIsParsed | cld.c:719-822 | whatever whitespace is around its parameters, a list is parsed as its parameters |
| ParamSpacing.Refused | cld.c:726-790 | exactly the errors: a quote that is never closed, a closing quote with something other than a comma behind it, a parameter of 250 characters or more |
| FreeText.ReadEscaped | cld.c:4821-4830 | escaped text reads back from its C string literal as itself |
| FreeText.ExecEmitted | cld.c:255-256 | running emitted code prints what its pieces print, in order |
| FreeText.CutEmptyPrints | cld.c:1056 | the removal cuts out exactly the calls that print nothing and never matches inside a literal |
| FreeText.NothingElseToCut | cld.c:1058 | the second removal finds nothing |
| FreeText.CleanedRuns | cld.c:1051-1074 | cleaning the generated code up does not change what it prints |
| FreeText.EscapeLine | cld.c:4817-4849 | the loop over a line writes its escape and finds the last ordinary character |
| FreeText.LogicalPlain | cld.c:2213-2247 | without continuations before the last line, the lines of text are the trimmed physical ones |
| FreeText.JoinedIs | cld.c:2238-2247 | for every file: the lines of text are all joined lines except what a last line to be continued leaves over |
| FreeText.TextIsLostIff | cld.c:2238-2247 | for every file: what is printed differs from all joined lines exactly when the last line is to be continued and leaves something to print |
| FreeText.LostLine | cld.c:2238-2247 | a file that is accepted and prints nothing |
| FreeText.CompileText | cld.c:2186-4882 | a file of text lines is accepted exactly when each is text and none too long; running its code prints exactly the trimmed non-blank lines, each with an end of line |
| TextRuns.RunIsLine | cld.c:2186-2247 | a run of physical lines, all before its last ending in a backslash, is one line of text: the trim of its pieces in the order of the source |
| TextRuns.RunsArePrinted | cld.c:2186-2247 | a file of such runs prints the line of each with one end of line; it is accepted only if each is text, and is if each is text and short enough |
| TextRuns.IsTextIff | cld.c:4817-4849 | which lines are text, told by their characters |
| QueryBlocks.ExactReset | cld.c:2046 | setting a query to unused breaks "active exactly when on the stack" exactly when it is active |
| QueryBlocks.ExactLost | cld.c:3408-3411 | a query reset while running stays wrong when run or started again |
| QueryBlocks.OpenBlock | cld.c:3399-3411 | a loop opened for an inactive query keeps stack, statuses and braces in step, and no loop nests in one over the same query |
| QueryBlocks.CloseBlock | cld.c:911-951 | closing the innermost one does too |
| QueryBlocks.EffectKeeps | cld.c:3268-3551 | whatever a statement does, open loops and stack stay in step within the limit; the statuses stay right exactly when it does not redefine an active query |
| QueryBlocks.EffectsKeep | cld.c:3268-3551 | over whole files, from any state: loops and stack stay in step, and the statuses are right after each statement exactly when none redefines an active query |
| QueryBlocks.RedefinedInside | cld.c:2046 | a file that runs a query inside itself, with a text, is accepted with its loop inside its own |
| QueryBlocks.Front.FindQuery | cld.c:1700-1713 | the first query of that name |
| QueryBlocks.Front.InitializeQuery | cld.c:2022-2062 | an old name becomes unused, a new one is added within the limit, nothing else changes |
| QueryBlocks.Front.EndQuery | cld.c:903-952 | exactly the innermost query becomes used and leaves the stack, its loop closed unless it was started; fails exactly when none is open |
| QueryBlocks.Front.LoopQuery | cld.c:3327-3355 | accepted exactly for a used query within the nesting limit, which then is innermost and active with its loop opened |
| QueryBlocks.Front.RunQuery | cld.c:3048-3551 | accepted exactly as specified, and then opens the loop of run-query or leaves the query of start-query used |
| QueryBlocks.Front.Step | cld.c:2515-3551 | every statement refines its effect on the stack of running queries |
| QueryBlocks.Compile | cld.c:4901-4904 | a file is accepted exactly when each statement is and none is left open; its blocks then are balanced whatever it redefines; the stack is right after each of its statements exactly when no active query is redefined, and then no loop is inside one over the same query |
| QueryHistory.AcceptedNext | cld.c:2515-3551 | a statement is accepted exactly when those before it allow it: a query runs once for each of its texts, is started while it is not active, and looped over once it was run or started |
| QueryHistory.FileAccepted | cld.c:2515-3551 | so is a whole file; the loops that are emitted are those of its statements |
| DbConnection.TransactionOnOneConnection | mys.c:104-125 | between begin and end of a transaction everything is sent on the connection it was begun on, and none is made |
| DbConnection.AtMostTwice | mys.c:290-378 | a statement is sent at most twice, the second time only after the first was lost with no transaction open and on a connection made in between; it is done exactly when the last reply was fine |
| DbConnection.Db.GetConnection | mys.c:69-188 | the cached connection, or a new one once login and both set-up statements succeed, failing only when the server does |
| DbConnection.Db.CloseConnection | mys.c:73-94 | ends any transaction with the connection |
| DbConnection.Db.HandleError | mys.c:389-472 | a lost connection is made again only if asked, once; other errors are handed on |
| DbConnection.Db.ExecuteSQL | mys.c:290-378 | exactly the specified requests are made, with the outcome of the last reply and the connection they leave |
| DbConnection.Db.BeginTransaction | mys.c:193-206 | a transaction is open on the connection where its start succeeded, or the program ends |
| DbConnection.Db.EndTransaction | mys.c:236-258 | although the flag is cleared first, the request reaches the connection of the transaction |
| DbConnection.Db.CheckTransaction | mys.c:216-230 | reports, rolls back or ends the program, by mode, only when a transaction is open |
| DbConnection.Db.Step | mys.c:55-472 | every call adds exactly the specified events, and leaves the specified connection, flag and counters |
| DbConnection.Session | mys.c:69-472 | over every program and every server: the log is that of the program's calls, and no transaction in it spans two connections |
| DbRequests.CommitRequests | mys.c:236-258 | a commit sends "commit" and ends the transaction |
| DbRequests.RollbackRequests | mys.c:236-258 | a rollback sends "rollback" and ends it |
| DbRequests.CheckRequests | mys.c:216-230 | checking an open transaction leaves it, rolls it back, or ends the program, by mode |
| DbRequests.BeginRequests | mys.c:193-206 | a transaction is begun only behind a fine "start transaction" on its connection |
| DbRequests.StatementEnds | mys.c:290-378 | the outcome of a statement is that of the last reply to it |
| DbRequests.SentAgain | mys.c:290-378 | a statement is sent again exactly when it was lost outside a transaction and a connection can be made |
| DbRequests.WhoEnds | mys.c:193-258 | over every program: each transaction that ends is ended by a call in its own words, and each that begins is begun by one |
| DbRequests.CommittedByCommit | mys.c:236-258 | a transaction that ends in "commit" is one that the program ended by a commit, unless it sends "commit" as a statement |
| DbRequests.CommittedByHand | mys.c:290-378 | a program that does |

## Left out

- SqlFill.MakeSQL: arguments of `CLD_MAX_SIZE_OF_URL` bytes and more, which `strncpy` truncates without a NUL, are excluded.
- SqlLexer.WholeFill: the lexer knows literals, doubled quotes, backslash escapes and double-quoted identifiers, not SQL comments.
- FormInput.BuildUrl: at least one field, for a multipart request without fields reads memory that was never written; upload files and the boundary scan are not modelled.
- FormInput.SplitParams: what the code reads behind the terminators once the chunks have run out is not modelled; running out is an error of its own, and `FormOverrun` says when.
- FormInput.FlattenInPlace: every `%` must be followed by two hex digits; the code does not check it.
- QueryRewrite.QueryTables.NewQuery: the fragments that are met are taken to be acyclic and sound where they stand (no tag or shard that only the text behind them ends); with cyclic ones the code does not end.
- QueryRewrite.QueryTables.RemoveSqlParams: `sprintf` copies overlapping memory there; it is modelled as the copy that was meant.
- QueryMeaning.CompiledMeaning: for templates with a tree; `QueryProper.AcceptedIff` says which accepted texts have one.
- OutputBuffer.Output.TrimEnd: the loop reads the byte in front of a string that is all whitespace; that is the highest byte of the block's size (cldmem.c:122-131) and is taken to be zero.
- OutputBuffer.Output.BeginWrite: writing to one variable at two levels is excluded; the flag that the code clears at level -1 when the first write-string is opened, in front of its array, is not modelled.
- OutputBuffer.Output.Printf: the text is taken as already formatted.
- OutputBuffer.Output.Flush: saving and linting of HTML, and the error report that is itself printing, are not modelled.
- Allocator.Memory.Realloc: the block is always a new one; growing in place would differ in its identity only. Sizes must fit an int.
- Allocator.Memory.CldDone: running it twice without a new table, which uses freed memory, is outside the model; so is running out of memory.
- ParamList.RoundTripIff: for plain values without outer whitespace.
- FreeText.CompileText: lines on which the compiler recognises no markup, outside verbatim and C blocks; generated code may grow without bound, while the source reallocates.
- QueryBlocks.Compile: adding inputs and taking results outside any open query, which use the stack at -1, is a refusal here.
- QueryBlocks.Front.RunQuery: whether the inputs of a query are those it needs is given with the statement instead of counted; dynamic queries are not modelled.
- DbConnection.Db.GetConnection: credentials are not modelled, and the set-up statements are not entered in the log.
- Web server, sockets, mail, files, processes, tracing, hashing and encryption: foreign calls.
- Recognition of the other markups and their options: long but shallow.
- Cookies, configuration, result iterators and the store list: simple containers.
