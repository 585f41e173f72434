# Verified models of bas-c

bas-c is a C base library. This project models the parts of it that carry state machines, parsers,
ownership or concurrency, and proves what they keep on every input, every run and every
interleaving. One module models one component; where the C code works by changing things in place
(arrays, linked chains, fields, buffers), a method or class does the same and is proved against a
specification function, and the laws of that function are lemmas.

| component | modules |
|---|---|
| command lines, `src/bas/cli/args.c` | Tokenizer, Braces, Globs, Hints, ArgsParse, with Memory for string ownership; WildcardLaws (what wildcard words mean) |
| timer thread, `src/bas/proc/dbgthread.c` | TimerProtocol (steps and invariants), TimerHistory (what a run asked for), TimerLiveness (infinite runs), TimerCadence, TimerInterval |
| re-entrant getopt_long, `src/bas/cli/opt_parser.c` | OptSpec (what a run means), OptLaws (by declarations), OptParser (the code) |
| stack frames and thread reports, `src/bas/proc/format_gdb.c`, `src/bas/proc/stackdump.c`, `src/bas/base/str.c` | StackFrames, GdbReport (meaning), GdbForms (reports as gdb writes them), FrameParser, GdbReader (code) |
| chained hash map, `src/bas/util/prefix_map.c` | PrefixTable (the table as a value), PrefixMap (the linked code) |
| statement executor, `src/bas/cli/cli_parser.c` | Redirections, AliasExpansion, DefaultParser, Statements (meaning), RedirectionLaws, StatementLaws (of printed commands), RedirectionParser, CliParser (code) |
| UTF-8, `src/bas/locale/unicode.c` | Utf8 |
| wide strings and their list, `src/bas/base/wstring.c`, `src/bas/base/wstring_list.c` | WString, SortedTexts, WStringList, ListGrowth |
| C text: white space, decimal numbers, searching | CText |

How C is represented:

* A C string is the text before its NUL. Where code writes NULs into a buffer or reads one up to a
  NUL (redirections, argv, str_getline), the buffer is an array of characters, NUL included.
* `char` is signed where it is promoted (the hash), and 32-bit wrap-around is written out there. A
  line number, a thread number and an LWP number are clamped and cut as `strtol` and a cast do it. The
  frame number is built digit by digit in an int without any check (`format_gdb.c` line 67); the model
  computes it unbounded and reports when it leaves the range, which is undefined in C. Where C writes
  past the 65 slots of `cmd_argv` the model reports that too, and no outcome. A code point is a
  32-bit vector, a byte an 8-bit one.
* A malloc'ed string is an object; `Memory.Heap.live` is the set of strings that somebody still has
  to free, and `Free` demands a live one. `Heap.buffers` are the buffers that a string is still being
  written to. A list of wide strings keeps the same account in its
  fields `owned` and `freed`.
* A stream that is written is an appended text, a stream that is read a sequence of bytes. What the
  code calls but does not contain is a parameter: the directory enumerator, the handlers, the alias
  resolver, the argument parser, the result of `qsort`, the outcome of `pthread_create`.
* `fnmatch` is modelled after the pattern notation of section 2.13 of POSIX.1-2017 XCU, in the C
  locale: all twelve character classes, ranges whose ends may be escaped, and complements.

Where the code and what is said about it disagree, the code is modelled:

* `args.c` line 409 says that wildcards are literal in quotes. Expansion runs after quotes are
  removed, so they are not (`ArgsParse.QuotesDoNotProtect`, `ArgsParse.QuotedStarIsExpanded`).
* The prefix hint of `expand_wildcard` is taken from the raw pattern. `Hints.HintSoundIff` says for
  every pattern when it is right. Without brackets that is if and only if the hint has no backslash or
  the pattern ends in a backslash that escapes nothing (`Hints.HintWithoutBrackets`); brackets can
  make up for escaped backslashes (`Hints.BracketsMakeUp`).
* The plain wildcard branch at `args.c` lines 702-730 neither keeps nor frees the raw word that it
  replaces (`ArgsParse.LeakedWords` counts these words exactly).
* A pattern with a directory is looked up below the current directory even if it is absolute
  (`WildcardLaws.BelowCurrentDirectory`), and `/x*` lists the current directory and loses its slash
  (`WildcardLaws.DirectoryIsDropped`).
* The comment at `cli_parser.c` line 407 allows 64 arguments, but the NULL after them needs a slot
  too: there is room for 63 (`StatementLaws.WordsFitIff`).
* `-:` passes for an option as soon as any letter takes an argument (`OptLaws.ColonPasses`).
* `format_gdb.c` reads `#30x7f...` as frame 3 at 0x7f..., but frame 0 written that way loses its
  address (`GdbForms.JoinedFrameIff`).
* `parse_interval_ms` takes any text after a number that does not start with an 's', and a minus sign
  wraps at 2^64 (`TimerInterval.IntervalOf`).
* `opt_parser.h` says that optind ends at the first operand. That is right if and only if the first
  word that is neither an option nor its argument is not a lone `-`, or a `--` comes before it
  (`OptSpec.OperandsAreLeftIff`). The run `["-"]` ends past its operand (`OptSpec.LoneDashIsPassed`).
* `stop_timer_thread` drops the lock around the join. Any number of controllers may start and update
  the timer, but the protocol is free of faults if and only if at most one of them stops it
  (`TimerProtocol.SafeIff`). With the source's one controller the join always returns
  (`TimerLiveness.StopReturnsAlone`); a second one can put it off for ever by updates alone
  (`TimerLiveness.StopStarves`). `parse_interval_ms` accepts intervals that overflow the accumulator
  (`TimerInterval.TypedIntervalIsSafeIff`).
* `is_gdb_noise_line` compares 47 bytes of a literal of 45, so that line is noise only at the end of
  the stream.
* `prefix_map_find_prefix` takes a NULL value for no match. After adding "a" with NULL and "ab" with a
  value, a search for "a" returns that value (`PrefixTable.WrongRun`). The search is right if and only
  if some shortest match is not NULL or every match that is not NULL is followed, in the order of the
  buckets and chains, by a shorter match that is (`PrefixTable.SearchRightIff`).
* A comment hides the rest of its line only when the line starts with it; after another statement it
  ends at the next semicolon (`Statements.CommentScope`).
* The UTF-8 decoder accepts overlong forms, surrogates and values above 10FFFF, which RFC 3629
  forbids; `Utf8.WellFormedIff` says exactly what it accepts beyond the standard.

`dafny verify dfyconfig.toml` checks the whole project.

## Model

| member | source | states |
|---|---|---|
| Tokenizer.TokensFailIff | src/bas/cli/args.c:453-458 | splitting a line fails exactly when the line ends inside an open quote |
| Tokenizer.TokensConcat | src/bas/cli/args.c:499-538 | after a text that ends outside quotes and escapes, the words of a line are those of the text and then those of the rest, for any rest that starts with a blank |
| Tokenizer.WordRoundTrip | src/bas/cli/args.c:368-467 | a word written as any mixture of bare, quoted and escaped stretches reads back as its text and stops at the next blank |
| Tokenizer.LineRoundTrip | src/bas/cli/args.c:368-538 | any list of words, in any quoting style and with any white space between them, splits into exactly those words |
| Tokenizer.QuoteRoundTrip | src/bas/cli/args.c:368-467 | wrapping any words, empty ones included, in single quotes with a backslash before quotes and backslashes is undone by splitting |
| Tokenizer.AnyEscape | src/bas/cli/args.c:388-405 | a backslash gives the character after it, whatever it is, inside quotes too; at the end of a line it is dropped |
| Braces.ItemsAreSegments | src/bas/cli/args.c:62-110 | the brace scanner finds the content cut at commas outside quotes, leading blanks stripped, empty inner items kept and a blank last one dropped |
| Braces.ExpandsIff | src/bas/cli/args.c:45-62 | a word is left alone exactly when it has no opening brace, no closing one after it, or only white space between the first such pair |
| Braces.ExpansionsAre | src/bas/cli/args.c:45-167 | with such a pair, the expansions are what is before it, one stripped part of what is between, cut at commas outside quotes, and what is after it |
| Braces.BraceRoundTrip | src/bas/cli/args.c:45-167 | prefix, braced items and suffix expand to prefix, item and suffix for each item in order |
| Braces.ExpandBrace | src/bas/cli/args.c:45-167 | the growing array ends up with fresh strings of exactly these texts, and they are all that is left allocated |
| Hints.HintSoundIff | src/bas/cli/args.c:243-256 | for every pattern, brackets included, over all names or over file names: every match starts with the hint if and only if the hint has no backslash, or nothing matches, or the hint ends in escaped backslashes that the brackets after it make up for |
| Hints.HintWithoutBrackets | src/bas/cli/args.c:243-256 | without brackets every match starts with the hint if and only if the hint has no backslash or the pattern ends in a backslash that escapes nothing |
| Hints.AllStartIff | src/bas/cli/args.c:178-207 | whether all matches of a pattern start with a given text can be read off the pattern, exactly |
| Hints.PrefixHintSound | src/bas/cli/args.c:243-256 | every name that a file pattern without a backslash in its hint matches starts with the hint |
| Hints.PrefixHintLosesAll | src/bas/cli/args.c:243-256 | when the hint's first backslash escapes anything but a backslash, no name that matches starts with the hint: a filter loses every match there is |
| Hints.PrefixHintUnsoundExample | src/bas/cli/args.c:243-256 | the pattern \a* matches ab, which does not start with its hint |
| Hints.BracketsMakeUp | src/bas/cli/args.c:243-256 | a pattern of two backslashes and a bracket with one has two backslashes for a hint, and it is right |
| Hints.PruningIsInvisible | src/bas/cli/args.c:210-365 | an enumerator that filters by the hint gives the same words in the same order in every directory tree, when the word has no wildcard or the hint of its file part is right |
| Hints.PruningIff | src/bas/cli/args.c:210-365 | exactly then: for any other word some directory tree, in which no directory lists a name twice, shows the difference |
| WildcardLaws.StarIff | src/bas/cli/args.c:178-187 | a star in front of a pattern matches exactly the texts of which some end matches the pattern |
| WildcardLaws.BracketIff | src/bas/cli/args.c:178-187 | a written bracket of characters, ranges and classes, with or without a complement, matches exactly one character of its set |
| WildcardLaws.WordStays | src/bas/cli/args.c:210-219 | a word without a star, question mark or opening bracket stays as it is, and so does every word without an enumerator or when it fails |
| WildcardLaws.InCurrentDirectory | src/bas/cli/args.c:210-305 | a pattern without a directory becomes the matching names of the current directory, in order, or stays |
| WildcardLaws.BelowCurrentDirectory | src/bas/cli/args.c:276-301 | dir/pattern becomes dir/name for the matching names in current/dir, in order, or stays, even if dir is absolute |
| WildcardLaws.BelowRoot | src/bas/cli/args.c:276-301 | from the root or without a current directory they are those in /dir |
| WildcardLaws.AbsoluteDirectory | src/bas/cli/args.c:292-301 | an absolute dir is taken as it is only without a current directory |
| WildcardLaws.DirectoryIsDropped | src/bas/cli/args.c:225-242 | an empty dir, or one of 256 characters or more, is ignored: the names are those of the current directory |
| Globs.ExpandWildcard | src/bas/cli/args.c:178-365 | the result holds fresh copies of exactly the matches in enumeration order, and the callback's own list is freed completely |
| ArgsParse.FailsIff | src/bas/cli/args.c:469-538 | args_parse fails exactly when the line ends inside an open quote, whatever the enumerator |
| ArgsParse.ArgumentsConcat | src/bas/cli/args.c:469-816 | parsing is a homomorphism: arguments of a closed text come before those of what follows it |
| ArgsParse.QuotesDoNotProtect | src/bas/cli/args.c:409-409 | however words are quoted or escaped, the arguments are the expansions of their texts: quotes do not make wildcards or braces literal |
| ArgsParse.ArgumentsAre | src/bas/cli/args.c:469-816 | the arguments of any quoted words are those of each word's text, one after the other |
| ArgsParse.BracedWord | src/bas/cli/args.c:541-690 | a word with a pair of braces gives, for each item in order, the wildcard expansion of prefix, item and suffix |
| ArgsParse.UnbracedWord | src/bas/cli/args.c:693-791 | any other word gives its wildcard expansion |
| ArgsParse.QuotedStarIsExpanded | src/bas/cli/args.c:409-409 | a quoted star becomes the file of a directory with one file |
| ArgsParse.RoundTripIff | src/bas/cli/args.c:469-816 | with any enumerator, single-quoted words come back as they were if and only if each keeps itself: no brace of it expands and no wildcard replaces it by anything but its own name, or its one brace item is replaced by a file named like the whole word |
| ArgsParse.PlainRoundTripIff | src/bas/cli/args.c:469-816 | without an enumerator, if and only if none of them has a brace that expands |
| ArgsParse.LinePruned | src/bas/cli/args.c:540-815 | a line all of whose patterns have a right hint, or no wildcard, gives the same arguments whether or not the enumerator prunes by the hint |
| ArgsParse.ParseArg | src/bas/cli/args.c:368-467 | the cursor loop and its malloc'ed, doubling buffer return exactly the word the specification reads; on an open quote the buffer is freed and nothing is left allocated |
| ArgsParse.ParseWords | src/bas/cli/args.c:492-538 | the first pass owns exactly the raw words, each once, or has freed everything on an error |
| ArgsParse.ExpandInto | src/bas/cli/args.c:541-791 | one raw word is replaced by its brace-then-wildcard expansion, and afterwards each of its strings is in argv, freed, or a leaked raw word |
| ArgsParse.ArgsParse | src/bas/cli/args.c:469-816 | argv is the concatenation of the words' expansions, argc its length, a NULL follows within capacity; every allocated string is in argv or freed exactly once, except exactly the raw words that plain wildcards replaced |
| ArgsParse.ArgsParseToList | src/bas/cli/args.c:829-856 | the list holds copies of the arguments, argv's own strings are all freed, and only the leaked words remain besides |
| TimerProtocol.Safety | src/bas/proc/dbgthread.c:195-327 | in every interleaving of any number of controllers with the timer threads, when only one of them stops the timer: no NULL or freed context is used and no thread joined twice, at most one timer thread exists and its context is allocated, the global is set exactly while an unjoined thread owns it (but mid-handover), at most one fire follows quit, and the counter is the number of fires |
| TimerHistory.PollsAreAsked | src/bas/proc/dbgthread.c:195-312 | in every such run the context has the options of the starts and updates carried out on it, its interval that of the last one or 2000 ms, its file name the last one given; each completed poll has the interval the context had when the thread read it, and has taken one sleep; the counter is what the polls call for |
| TimerHistory.FiresAsAsked | src/bas/proc/dbgthread.c:195-312 | when every start and update of the run asks for I ms, all polls have I, and after p polls the counter is p div ceil(I/100) |
| TimerProtocol.OneController | src/bas/proc/dbgthread.c:551-552 | the source's single controller meets that condition in every run |
| TimerProtocol.SafeIff | src/bas/proc/dbgthread.c:195-327 | among n controllers, every run in which only some given ones stop the timer is free of faults if and only if these are at most one |
| TimerProtocol.StopIsNotStuck | src/bas/proc/dbgthread.c:314-327 | in every such run, a controller waiting in the join is never stuck: the thread has exited, or can step and gets strictly nearer to exiting, or waits for a controller that can go on |
| TimerLiveness.StopReturns | src/bas/proc/dbgthread.c:314-327 | in every infinite run of n controllers of which one stops the timer, the join returns, given that no controller halts inside a call and that the thread gets the mutex some time if it is free again and again |
| TimerLiveness.StopReturnsAlone | src/bas/proc/dbgthread.c:314-327 | with the source's one controller the join returns in every infinite run in which neither it nor the thread halts |
| TimerLiveness.StopStarves | src/bas/proc/dbgthread.c:253-327 | with a second controller that is not enough: an infinite run in which nobody halts and the second one only updates the timer keeps the join waiting for ever |
| TimerProtocol.NoOverflow | src/bas/proc/dbgthread.c:195-249 | in every such run whose intervals stay within 2147483600 ms the accumulator never overflows an int |
| TimerProtocol.TwoStoppersFault | src/bas/proc/dbgthread.c:314-327 | any two of n controllers that both stop the timer have a run that ends in a use of NULL or freed memory |
| TimerCadence.FireWhenDue | src/bas/proc/dbgthread.c:205-227 | however the interval changes, a fire comes at the first poll at which the time since the last fire reaches the interval then in force |
| TimerCadence.SteadyCadence | src/bas/proc/dbgthread.c:195-245 | with a constant interval I, n polls make n div ceil(I/100) fires |
| TimerCadence.OverflowIff | src/bas/proc/dbgthread.c:195-245 | for a constant int interval the accumulator stays in range for all time if and only if the interval is at most 2147483600 |
| TimerInterval.ParseIntervalMs | src/bas/proc/dbgthread.c:356-373 | the loop and the tests give the milliseconds of the text, or -1 |
| TimerInterval.IntervalOf | src/bas/proc/dbgthread.c:356-373 | a decimal number, with white space and a sign before it and blanks after it, is read as itself, times 1000 if an 's' or 'S' follows, whatever else follows, and refused exactly when it does not fit an int; a minus sign wraps at 2^64 |
| TimerInterval.NoInterval | src/bas/proc/dbgthread.c:356-373 | without a digit there is no interval |
| TimerInterval.TypedIntervalIsSafeIff | src/bas/proc/dbgthread.c:356-373 | every int interval is accepted as typed, and it is safe for the accumulator if and only if it is at most 2147483600 |
| OptSpec.ParseStops | src/bas/cli/opt_parser.h:52-61 | optind ends at the first word that the run has not passed, which is an operand, follows `--` or is the end; the one exception is a lone dash |
| OptSpec.LoneDashIsPassed | src/bas/cli/opt_parser.c:219-223 | a lone dash is an operand, but the run passes it |
| OptSpec.SectionEnds | src/bas/cli/opt_parser.h:52-61 | the options with their arguments are followed by an operand or the end, or by the `--` that makes every later word an operand |
| OptSpec.UsedIs | src/bas/cli/opt_parser.c:49-223 | a run passes exactly that section, and one word more if and only if a lone dash follows it without a `--` |
| OptSpec.OperandsAreLeftIff | src/bas/cli/opt_parser.h:52-61 | optind ends at the first operand, after options, their arguments and `--`, if and only if that operand is not a lone dash without a `--` before it |
| OptSpec.OperandsAreLeft | src/bas/cli/opt_parser.h:52-61 | in particular when no word is a lone dash: optind ends where that section does, at an operand, after `--`, or at the end |
| OptLaws.TypesAreDeclared | src/bas/cli/opt_parser.c:29-47 | for any declaration of different letters, printed as an optstring, each letter has its declared kind and every other one but the colon is unknown |
| OptLaws.ColonPasses | src/bas/cli/opt_parser.c:29-47 | the colon itself passes for an option if and only if some letter takes an argument |
| OptLaws.FlagLaw | src/bas/cli/opt_parser.c:143-217 | a declared flag is reported without an argument, and parsing goes on behind it |
| OptLaws.UnknownLaw | src/bas/cli/opt_parser.c:204-217 | an undeclared letter is reported as a question mark with the letter in optopt and a message, and parsing goes on |
| OptLaws.RequiredLaw | src/bas/cli/opt_parser.c:160-203 | a required argument is the rest of the word, else the next word whatever it is, else a question mark with the letter in optopt |
| OptLaws.OptionalLaw | src/bas/cli/opt_parser.c:160-203 | an optional argument is only the rest of the word; the next word is left alone |
| OptLaws.GroupingLaw | src/bas/cli/opt_parser.c:143-217 | -abc means -a -bc whenever -a is a declared flag or not declared |
| OptLaws.ShortArgumentLaw | src/bas/cli/opt_parser.c:160-203 | -fVALUE means -f VALUE for a letter declared with a required argument |
| OptLaws.LongLaw | src/bas/cli/opt_parser.c:77-140 | --name reports the first option of that name, with the next word only if its argument is required, and a question mark if there is none; with a flag the value is written there and 0 is the result |
| OptLaws.LongValueLaw | src/bas/cli/opt_parser.c:77-140 | --name=VALUE gives VALUE as the argument, unless the option takes none |
| OptLaws.LongUnknownLaw | src/bas/cli/opt_parser.c:129-140 | an unknown name is reported as a question mark with optopt 0, in both forms |
| OptSpec.LongArgumentLaw | src/bas/cli/opt_parser.c:77-140 | --name=VALUE means --name VALUE for a required argument |
| OptParser.OptParser.OptParseLong | src/bas/cli/opt_parser.c:49-223 | one call reports the first event of the run that the specification says is left, leaves the parser at what remains of it, changes no byte of argv, keeps the parser's invariant, and gets strictly nearer the end unless it returns -1 |
| OptParser.OptParser.LongOption | src/bas/cli/opt_parser.c:77-140 | long options in both forms report name, argument and index as specified, and the NUL written over an equals sign is taken back on every path |
| OptParser.OptParser.ShortOption | src/bas/cli/opt_parser.c:143-217 | one letter of a cluster reports letter and argument as specified; the cluster position stays strictly inside the word or the word is done |
| OptParser.ParseAll | src/bas/cli/opt_parser.h:52-61 | the driver loop terminates; its sequence of results, arguments and indices is that of the specification, optind ends where its run does unless an option itself reports -1, and argv is byte for byte as before |
| StackFrames.RoundTripIff | src/bas/proc/format_gdb.c:53-149 | a frame printed without colours parses back to itself if and only if it is readable: numbers fit, address and groups well formed, the name tells where it ends, the file is one line without a colon before a digit, and nothing the parser strips starts the name |
| StackFrames.BodyIff | src/bas/proc/format_gdb.c:90-147 | from the symbol on, a frame is read back the same exactly under the conditions on name, params and location |
| StackFrames.ReadLocationIff | src/bas/proc/format_gdb.c:128-147 | a location is read back exactly when its line is positive and its file name plain |
| StackFrames.ReadParamsIff | src/bas/proc/format_gdb.c:107-125 | a text in front of others is read as the parameters exactly when it is one balanced group |
| FrameParser.FormatFrame | src/bas/proc/stackdump.c:125-167 | the printer appends the frame's text to the stream piece by piece, with any colour schema, and nothing else |
| StackFrames.Coloured | src/bas/proc/stackdump.c:125-167 | with colours, each field of a full frame stands between its own escape sequence and the reset |
| FrameParser.ParseFrame | src/bas/proc/format_gdb.c:53-149 | the pointer loops compute the specified parse of every text, and the digit loop leaves the int range exactly when the digits after the hash are beyond it |
| GdbReport.HeaderRoundTripIff | src/bas/proc/format_gdb.c:11-50 | a printed thread header, cut to its 256-byte buffer, parses back to the same thread if and only if it is readable |
| GdbForms.LwpAnywhere | src/bas/proc/format_gdb.c:21-30 | wherever it stands after the thread number, the number after the first "(LWP " is the LWP number |
| GdbForms.NoLwp | src/bas/proc/format_gdb.c:24-30 | without that mark it is 0 |
| GdbForms.LwpWithoutNumber | src/bas/proc/format_gdb.c:24-30 | so it is when no digit follows the first mark |
| GdbForms.GdbHeaderIsRead | src/bas/proc/format_gdb.c:10-50 | gdb's own header, with a thread handle in parentheses around the LWP number, gives number, LWP number and quoted name |
| GdbForms.GdbFrameIsRead | src/bas/proc/format_gdb.c:53-149 | a frame with any blanks after its number is read as it was written |
| GdbForms.JoinedFrameIff | src/bas/proc/format_gdb.c:64-74 | a frame whose address follows its number directly is read as it was written if and only if the number is not 0 |
| GdbForms.ReportIsRead | src/bas/proc/format_gdb.c:151-192 | a whole report, with any lines before the first header and among the frames, gives every thread with its number, LWP number, name and exactly its frames in order; frames under a header without a number are dropped |
| GdbReport.LinesConcat | src/bas/base/str.c:31-67 | the lines read from a stream concatenate to the stream |
| GdbReport.LinesAreLines | src/bas/base/str.c:31-67 | each line ends with its only newline, except perhaps the last |
| GdbReport.ReportIsSections | src/bas/proc/format_gdb.c:166-192 | the line loop gives every parseable frame line, in order, to the latest header if that header parsed, and drops it otherwise |
| GdbReport.NoiseTestIsIdle | src/bas/proc/format_gdb.c:151-192 | the loop does the same without the noise test, on any lines |
| GdbReport.NoiseCanBeRemoved | src/bas/proc/format_gdb.c:151-192 | taking the noise lines out of any report does not change the result |
| GdbReader.StrGetline | src/bas/base/str.c:31-67 | the doubling buffer ends up with exactly the next line and a NUL within its size, and the stream is advanced by that line |
| GdbReader.GdbOutputParse | src/bas/proc/format_gdb.c:166-192 | the reader's result on a stream is the specified report |
| PrefixTable.HashIsPortable | src/bas/util/prefix_map.c:24-31 | bucket numbers depend neither on 32-bit wrap-around nor on the signedness of char |
| PrefixTable.RunAgrees | src/bas/util/prefix_map.c:57-198 | after any run of additions, removals and clears: keys are unique and in their own buckets, lookups are those of the mathematical map, and the number of entries is its size |
| PrefixTable.RunConserves | src/bas/util/prefix_map.c:57-198 | after any run the values handed in are, as a multiset, those destroyed and those stored |
| PrefixTable.DestroyedOnce | src/bas/util/prefix_map.c:57-198 | a value handed in once is never destroyed while stored, at most once in all, and exactly once after a clear |
| PrefixTable.SearchRightIff | src/bas/util/prefix_map.c:105-132 | on the entries as buckets and chains order them: the search returns the value of a shortest key extending the prefix, or NULL if none does, if and only if some shortest match is not NULL or every match that is not NULL is followed by a shorter one that is |
| PrefixTable.FindableIsFound | src/bas/util/prefix_map.c:105-132 | whatever the order, the answer is right if some shortest match is not NULL or all matches are |
| PrefixTable.WrongRun | src/bas/util/prefix_map.c:105-132 | a run of two additions after which a search returns a value although the shortest match has NULL |
| PrefixTable.NullIffNoMatch | src/bas/util/prefix_map.c:105-132 | with no NULL values stored the search returns NULL exactly when no key extends the prefix |
| PrefixMap.TableKeysUnique | src/bas/util/prefix_map.c:57-85 | no key is in the whole table twice |
| PrefixMap.HashString | src/bas/util/prefix_map.c:24-31 | the loop computes the wrapped 32-bit hash modulo 128 |
| PrefixMap.PrefixMap.Add | src/bas/util/prefix_map.c:57-85 | the linked chains then hold the table after an addition: replaced in place or put in front, the old value destroyed once, count right, chains acyclic and disjoint |
| PrefixMap.PrefixMap.Get | src/bas/util/prefix_map.c:88-102 | the chain walk returns the value stored under the key, NULL if there is none |
| PrefixMap.PrefixMap.Remove | src/bas/util/prefix_map.c:135-165 | unlinking leaves the table without the key and the others in place, destroys the value once, and reports whether the key was there |
| PrefixMap.PrefixMap.Clear | src/bas/util/prefix_map.c:178-198 | every value is destroyed once, in chain order, and the map is empty and usable again |
| PrefixMap.PrefixMap.FindPrefix | src/bas/util/prefix_map.c:105-132 | the nested walk over the linked chains returns a right answer exactly under that condition |
| Redirections.PartsInOrder | src/bas/cli/cli_parser.c:167-316 | every command text is, in order, command, pipe, input and output with one operator and white space between two of them, and only white space after: parts are disjoint and nothing else is lost |
| Redirections.LineRoundTrip | src/bas/cli/cli_parser.c:167-316 | a command printed with optional pipe, input and output, any of four spacings at each operator and either output operator, parses back to its parts and append flag |
| RedirectionLaws.SpacedCounts | src/bas/cli/cli_parser.c:212-300 | of several equal operators the first with blanks on both sides counts, else the first with one after it, else the first with one before it |
| RedirectionLaws.LastCounts | src/bas/cli/cli_parser.c:224-300 | without blanks the last one counts |
| RedirectionLaws.FirstAppendCounts | src/bas/cli/cli_parser.c:177-208 | of several `>>` without blanks the first one counts |
| RedirectionLaws.AppendBeforeOutput | src/bas/cli/cli_parser.c:177-240 | a `>>` anywhere counts before every `>` |
| RedirectionParser.TrimWhitespace | src/bas/cli/cli_parser.c:128-146 | leading white space is skipped, trailing white space overwritten by NULs, and nothing else is written |
| RedirectionParser.ParseRedirections | src/bas/cli/cli_parser.c:167-316 | the in-place code leaves each part where it was in the buffer, ended by a NUL, its pointer at its start; it writes nothing but NULs, and only into the text |
| AliasExpansion.ExpandIff | src/bas/cli/cli_parser.c:415-491 | for any parser and any alias table: a command gets ready if and only if after at most nine expansions its name is no alias; too many expansions are reported if and only if there are ten; other errors exactly when an expansion within nine gives them |
| AliasExpansion.ReadyFollows | src/bas/cli/cli_parser.c:415-491 | the name a handler gets is the end of the chain of first words, reached in at most nine steps |
| AliasExpansion.LongChainFails | src/bas/cli/cli_parser.c:485-491 | a chain of ten first words or more is always an error |
| AliasExpansion.CycleFails | src/bas/cli/cli_parser.c:485-491 | a cycle of aliases is always an error, wherever it is entered |
| DefaultParser.ClosedValueHasHead | src/bas/cli/cli_parser.c:438-483 | with args_parse as the parser, the first word of an expansion is that of the alias value, whatever arguments follow, when the value fits the buffer and ends outside quotes and escapes |
| DefaultParser.DefaultLongChainFails | src/bas/cli/cli_parser.c:415-491 | with args_parse and a table of such values, a chain of ten first words or more is always an error |
| DefaultParser.DefaultCycleFails | src/bas/cli/cli_parser.c:415-491 | with args_parse and a table of such values, a cycle is always an error, wherever it is entered |
| DefaultParser.NamePilesUp | src/bas/cli/cli_parser.c:441-476 | when the arguments there are are plain words and all fits the buffer, an expansion puts such a value's arguments before them, so that from the second one on the replaced name becomes an argument |
| Statements.SplitJoins | src/bas/cli/cli_parser.c:542-574 | the statements of a line, joined by semicolons, are the line, and none has a semicolon, quoted or not |
| Statements.SequenceLaw | src/bas/cli/cli_parser.c:526-575 | a line with a semicolon does what is before it and, if that succeeds, what is after it in the world this leaves |
| Statements.CommentScope | src/bas/cli/cli_parser.c:531-572 | a comment at the start hides the whole line, after another statement only up to the next semicolon |
| StatementLaws.HandlerIsGiven | src/bas/cli/cli_parser.c:328-524 | for a printed statement, with any argument parser and aliases, the first handler that takes it is given the name and words that the aliases lead to, and the texts after the pipe, input and output operators each as its stream |
| StatementLaws.NameIsGiven | src/bas/cli/cli_parser.c:358-521 | a name that is no alias: the handler is given the name, and the name in front of the parsed words |
| StatementLaws.PlainStatementIsGiven | src/bas/cli/cli_parser.c:328-524 | a printed name with words, pipe, input and output, with args_parse and plain words: name, words and streams arrive as written |
| StatementLaws.AliasIsGiven | src/bas/cli/cli_parser.c:415-521 | an alias with plain arguments, args_parse and a closed value: the handler is given the value's first word as the name, the value's words and then the written ones, and the same streams |
| StatementLaws.WordsFitIff | src/bas/cli/cli_parser.c:405-413 | with a name that is no alias, cmd_argv has room exactly for up to 63 words after it |
| StatementLaws.ArgumentsFail | src/bas/cli/cli_parser.c:396-403 | arguments that do not parse make no call and return -1 |
| StatementLaws.AliasesFail | src/bas/cli/cli_parser.c:415-491 | aliases that fail make no call and return -1 |
| StatementLaws.NobodyTakes | src/bas/cli/cli_parser.c:493-523 | a command that no handler takes makes no call and returns -1 |
| StatementLaws.LongNameIsCut | src/bas/cli/cli_parser.c:358-376 | a name is cut to 255 characters |
| StatementLaws.LongStatementIsCut | src/bas/cli/cli_parser.c:549-563 | a statement is cut to 1023 characters |
| StatementLaws.LongLineIsCut | src/bas/cli/cli_parser.c:537-540 | a line is cut to 2047 characters |
| Statements.LineIsTrace | src/bas/cli/cli_parser.c:328-575 | for any handlers, aliases and parser: calls follow each other from world to world, each goes to the first handler that takes it with a name that is no alias there, all but the last succeed, and the code is that of the first failure |
| CliParser.BuildExpanded | src/bas/cli/cli_parser.c:438-450 | the truncating concatenations give the truncated concatenation of value and arguments |
| CliParser.ExpandAliases | src/bas/cli/cli_parser.c:415-491 | the loop over the updated name and the fixed array cmd_argv has the specified outcome, unless it writes past the 65 slots, which it does exactly when an argv of the expansions has 65 words or more |
| CliParser.ExecuteStatement | src/bas/cli/cli_parser.c:328-524 | trimming, redirections in the copied buffer, name, arguments, aliases and handlers together do what one statement means, unless cmd_argv is overrun, which happens exactly when an argv of the statement or of its expansions has 65 words or more |
| CliParser.ParseLine | src/bas/cli/cli_parser.c:526-575 | the statement loop does what the line means: statements in order, stopping at the first failure, unless cmd_argv is overrun, exactly when a statement that it gets to does so |
| CliParser.Aliases.SetAlias | src/bas/cli/cli_parser.c:580-606 | afterwards the name resolves to the value and every other name as before; refused exactly with an external resolver |
| CliParser.Aliases.GetAlias | src/bas/cli/cli_parser.c:608-629 | the resolver's answer if there is one, else what the table holds |
| CliParser.Aliases.RemoveAlias | src/bas/cli/cli_parser.c:631-647 | succeeds exactly when the name resolves in the internal table; then it no longer does and every other name resolves as before |
| Utf8.DecodeEncode | src/bas/locale/unicode.c:10-76 | decoding an encoded code point gives it back and its length, whatever follows |
| Utf8.StreamRoundTrip | src/bas/locale/unicode.c:10-76 | decoding the concatenated encodings of any code points up to 10FFFF returns them |
| Utf8.DecodeAdvances | src/bas/locale/unicode.c:10-46 | any bytes: 1 to 4 consumed, none past the end, exactly one when malformed, none only at the end |
| Utf8.ScanConserves | src/bas/locale/unicode.c:10-46 | decoding over and over steps over every byte once |
| Utf8.PrefixFree | src/bas/locale/unicode.c:48-76 | no encoding is the beginning of another |
| Utf8.OrderIff | src/bas/locale/unicode.c:48-76 | encoded texts compare by bytes as the texts compare by code points, for texts of any length (section 1 of RFC 3629) |
| Utf8.ReencodeIff | src/bas/locale/unicode.c:10-76 | re-encoding a decoded value gives the consumed bytes if and only if they were the shortest form and at most 10FFFF |
| Utf8.WellFormedIff | src/bas/locale/unicode.c:10-46 | a sequence is well-formed by section 4 of RFC 3629 if and only if it is decoded whole, in shortest form, to neither a surrogate nor a value above 10FFFF |
| Utf8.EncodeWellFormedIff | src/bas/locale/unicode.c:48-76 | what the encoder writes is well-formed by RFC 3629 except for surrogates |
| Utf8.EncodeCodePoint | src/bas/locale/unicode.c:48-76 | the encoding is written to the front of the caller's array, the rest of it is untouched, and an invalid value writes nothing |
| WString.TotalOrder | src/bas/base/wstring.c:15-29 | wstring_cmp is a total order on texts: zero only for equal ones, reversed when swapped, transitive |
| WString.WStringCmp | src/bas/base/wstring.c:15-29 | the index loop computes that order, with NULL above every text |
| WString.WStringStrStr | src/bas/base/wstring.c:32-53 | the nested loops find the first occurrence, and report none exactly when there is none |
| SortedTexts.SortExists | src/bas/base/wstring_list.c:223-239 | every list can be put in the order that qsort is asked for |
| SortedTexts.StrictIsUnique | src/bas/base/wstring_list.c:308-338 | strictly ascending lists with the same set of texts are the same texts: the outcome of unique does not depend on how qsort orders equal strings |
| WStringList.WStringList.Insert | src/bas/base/wstring_list.c:104-125 | one copy appears at the index, the rest keeps its order, capacity grows as specified, and every live string is still owned |
| WStringList.WStringList.Append | src/bas/base/wstring_list.c:87-101 | the list is extended by one copy, growth is as specified, and slots beyond the count stay NULL |
| WStringList.WStringList.Remove | src/bas/base/wstring_list.c:128-143 | exactly the string at the index is freed, once, and the others keep their order |
| WStringList.WStringList.Resize | src/bas/base/wstring_list.c:193-220 | what does not fit is freed, once each and in order; the rest stays and new slots are NULL |
| WStringList.WStringList.Unique | src/bas/base/wstring_list.c:308-338 | for any sorted order that qsort leaves: the list is strictly ascending with the same set of texts, and exactly the surplus copies are freed, once each |
| WStringList.WStringList.KeepString | src/bas/base/wstring_list.c:319-327 | the slots between write_idx and i are NULL, so the free at line 322 is never reached and no live string is freed |
| ListGrowth.GrowthBound | src/bas/base/wstring_list.c:14-39 | after n appends the capacity is 0 or 16 doubled some times, at most 16 or 2n, and fewer than 2n slots have gone through realloc in all |
| ListGrowth.AppendAll | src/bas/base/wstring_list.c:87-101 | n appends to an empty list hold the appended texts, with this capacity and these moves |
| ListGrowth.Join | src/bas/base/wstring_list.c:242-286 | the computed length is exactly what the copy loops fill: the texts with separators between them, and a zero in the last unit |
| ListGrowth.JoinRoundTrip | src/bas/base/wstring_list.c:242-286 | texts joined by a unit that none of them has are got back by cutting at it |

## Left out

- string_list.c: the same list over char strings; wstring_list.c stands for both, except for strcmp, which the C library provides.
- memory besides the strings named: freeing of arrays (argv, match lists), bucket entries and keys, and of the scratch copies that a function makes and frees itself, is not tracked.
- memory exhaustion: every malloc and realloc succeeds, except the context and the thread in start_timer_thread, which may fail.
- an enumerator that answers differently from call to call: it is a function of directory, prefix and pattern.
- fnmatch: collating symbols, equivalence classes and locale orderings inside brackets are not modelled.
- CliParser.ExpandAliases: the freeing and replacing of parsed_argv's strings is not tracked; the argument parser is a parameter that returns a value.
- CliParser.ExecuteStatement: no outcome after cmd_argv is overrun, which is undefined in C; the method says when it is. The same holds for CliParser.ExpandAliases, CliParser.ParseLine and CliParser.RunName.
- GdbReader.GdbOutputParse: takes the frame number of `#` and digits unbounded; where it is beyond an int the source's result is undefined.
- sizes above the int and size_t ranges: argc, lengths and capacities do not wrap.
- what a fire does: stack dumps, fd dumps and top-thread listings, and the menu commands around the timer.
- handlers that change the argument parser or the handler table while a line runs; they may change anything else, aliases included.
- prefix_map_foreach and the alias enumeration: callbacks that a caller runs over the chains in order.
- cli_parser_register_handler and the error callback: a growing array and printed messages; which error is reported is part of an outcome.
- raw_line of a frame or thread, and colours in the parsers' input.
- whole-report print-then-parse: the printer indents frames and the parser wants them in column 0.
- wstring_list_find, get, copy and the accessors: searches and reads that leave the list as it is.
- ICU conversions, GLib option parsing, logging, i18n, and everything that reads /proc, forks or handles signals.
