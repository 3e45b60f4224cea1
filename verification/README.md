# Verification of Network Recorder's native tools

A Dafny model of the hard parts of the native code under `Network Recorder/jni`: busybox grep with its option
parser, the `tcproxy` relay, and the parts of iptables 1.4.11 that read, print, convert and compare rules. Code that
changes buffers and counters step by step is modelled as classes and methods over arrays; each such method is proved
against a specification function or predicate, and the properties below are proved about that specification.
`dafny verify dfyconfig.toml` checks the whole project.

| file | what it models |
|---|---|
| `Common.dfy` | types that several parts use |
| `GrepContext.dfy` | grep's one-pass context engine (`-A`, `-B`, `-C`, `-m`, `-c`): a circular buffer, a countdown and the last line printed, proved equal to a set of wanted lines |
| `FixedMatcher.dfy` | the fixed-string matcher with `-x`, `-w`, `-v` and a pattern list |
| `Getopt.dfy` | getopt32: the option table, the compiler of its mini-language, the fold over option occurrences, and grep's own specification |
| `HexDump.dfy` | the relay's `write_hex`, which fills one array with two cursors |
| `Relay.dfy` | the relay: two buffers, partial writes, arbitrary reads, the log |
| `Numbers.dfy` | numbers as text: `%x` and `%u`, and `strtoul` with base 0 |
| `U32.dfy` | the u32 match: its two-state parser, its grammar and its dumper |
| `Multiport.dfy` | the multiport match: port lists packed in two arrays |
| `Rates.dfy` | rate, period and rate again, for limit and hashlimit |
| `RestoreTokenizer.dfy` | the quoted-argument tokenizer of iptables-restore, and LED's escaping printer |
| `StringMatch.dfy` | the string match: hex strings, plain strings, and what a saved rule restores |
| `XmlRules.dfy`, `XmlConverter.dfy`, `XmlComment.dfy` | iptables-xml: rule parts, combining of rules, the converter as a whole, comments |
| `RuleBlob.dfy` | a rule as one block of bytes, the delete mask, and the comparison that finds a rule by them |

## What holds and what does not

Most properties hold of the code as it stands. The following, which one would expect, do not; each comes with the exact
condition under which the code is right, and with the inputs on which it fails.

- `grep -F -w` rescans from one character after a rejected occurrence and takes that character for a line start. It is
  right on every line if and only if the pattern is not a repetition of one word character (nor empty):
  `RescanExactIff`; `RescanMisreports` names the line.
- With `-m 0`, and with a negative count, grep counts one line before it stops. With a negative `-B` it uses a buffer
  that was never allocated, at the first line of a file unless that is selected beyond the limit (`GrepFile`).
- A rule saved by the string match is restored only when the pattern is printable, has no backslash and does not look
  like a table option, that is, does not start with `-t` and is not `--table`. A pattern with a control character is printed as `--hex-string` directly followed by the quote,
  which the tokenizer joins into one argument; a backslash is swallowed: `RestoresIff`, `HexRunsTogether`,
  `BackslashLost`.
- An empty pattern can be stored: a hex string that is a bar and nothing but spaces gives one, and no other hex string
  does (`EmptyPattern`). The scan for characters that need hex then reads the byte before the pattern (`IsHexString`), and
  the saved option has no argument (`EmptyLost`).
- A hex string may have one byte more than the pattern has cells. That byte is stored in the length, which is then
  overwritten: the pattern is held if and only if it is shorter than 129 bytes (`ParseHex`); 129 plain characters are
  accepted (`PlainTextAccepted`).
- Saving and restoring a rate gives the period plus one exactly when quotient and remainder tie: `SaveRestore`;
  `RateDrifts` names a rate.
- A rate can be accepted with period zero, on which the printer divides by zero: exactly when it is more than one a
  tick and less than one a second too fast (`ZeroPeriod`); 600059/minute is such a rate (`ZeroPeriodAccepted`).
- In a hex string, the character right after a closing bar is stored as it stands, even a bar or a backslash
  (`ParseHexIff`).
- iptables-xml drops a `!` that stands before `-m` or a target: it is printed nowhere (`PartRead`).
- iptables-xml closes tags out of order, on every input it accepts, if and only if some rule stands in no chain: its own
  is not declared and no rule before it in the table opened one. `Convert`; `NoChainOrphaned` and `ConvertOrphan` show
  an input. (A rule of an undeclared chain that comes later is printed in the chain that is open.)
- With combining on, iptables-xml can print a rule with conditions that are not its own. It remembers the last rule
  across `COMMIT` and across a new table, and it does not compare the marks of quoted arguments. Ungrouping the output
  gives the input rules if and only if no rule is combined whose conditions differ from those it is then found with:
  the previous rule's if the chain stays open, none otherwise (`Convert`, `LosesConditions`). `TwoTablesMerge` and
  `TwoQuotingsMerge` are inputs of the two kinds, and `ConvertLosing` runs them. For rules of the usual shape, quoted
  alike, only the table boundaries matter (`RegularLoses`).
- The restore tokenizer writes past its buffer when, before any other error, an argument with a quoted part fills the
  buffer and then goes on or is closed, and only then (`OverrunIff`).
- The delete mask covers an extension's revision, but the comparison used by delete and check never reads it. Two rules
  with extension targets agree under the whole mask if and only if they compare the same and also have the same
  revisions and the same bytes throughout the head (`AgreeIsSame`); a rule that differs from another in a revision only
  compares the same (`RevisionIgnored`).

Where a comment disagrees with the code, the model follows the code: the helper that prints a rule part says that it
skips the leading `-A`, but skips only that one argument, so the chain name is printed among the conditions. A negative
`-A` value never runs out.

## Model

| member | source | states |
|---|---|---|
| GrepContext.Grep.GrepFile | Network Recorder/jni/grep/grep.c:304-570 | For any lines, any selection, any A and B and any `-m` limit, the one-pass engine appends exactly the wanted lines of the file cut just before the line that exceeds the limit, with separators, continuing from what was printed before. The count is that of the selected lines; beyond a limit of at least one it is the limit, or one more when after-context is still owed at the cut; in the `-m 0` and negative cases it is 1 or 0. It says when a negative B is a fault, before which nothing is printed |
| GrepContext.ListingExact | Network Recorder/jni/grep/grep.c:445-535 | The listing has strictly increasing line numbers, so no line twice, and holds an item exactly when its line is selected, at most B before a selected line or at most A after one, with that line's text and number and ':' or '-' |
| GrepContext.SeparatorsExact | Network Recorder/jni/grep/grep.c:251-281 | "--" stands exactly between consecutive printed lines whose numbers are not adjacent, when A or B is nonzero, and never before the first |
| GrepContext.WantedSettled | Network Recorder/jni/grep/grep.c:445-535 | Whatever lines follow, it is already decided which lines before the unprinted run are wanted, and no line of that run has been wanted yet: why one pass is enough |
| GrepContext.ListingAtCut | Network Recorder/jni/grep/grep.c:543-558 | Once no after-context is owed, reading on to the next selected line adds nothing, so stopping at the limit loses no line |
| GrepContext.CutAtMeaning | Network Recorder/jni/grep/grep.c:421-449 | The cut keeps at most the limit of selected lines and ends just before a selected line in excess, or at the end of the file |
| GrepContext.BufferedLine | Network Recorder/jni/grep/grep.c:508-530 | Storing an unwanted line keeps the buffer invariant: the occupied slots are one circular run that ends just before `curpos` and holds the preceding consecutive lines |
| GrepContext.RunLength | Network Recorder/jni/grep/grep.c:453-480 | Under that invariant, the slot before `curpos` is empty exactly when no line waits, and the run is the last B unprinted lines or fewer |
| GrepContext.Grep.PrintRun | Network Recorder/jni/grep/grep.c:453-480 | Finding the first occupied slot and printing up to the first empty one shows the waiting lines in order with their own numbers and leaves every slot empty |
| GrepContext.Grep.PrintSelected | Network Recorder/jni/grep/grep.c:450-505 | A selected line keeps the whole-pass invariant: output is the listing of the lines read, buffer and countdown are those of the longer prefix |
| GrepContext.Grep.PassUnselected | Network Recorder/jni/grep/grep.c:507-530 | So does an unselected line, whether it is printed as after-context, buffered or dropped |
| FixedMatcher.MatchFixed | Network Recorder/jni/grep/grep.c:340-368 | The rescan loop ends on every line and pattern and reports exactly: equality under `-x`; under `-w`, an occurrence followed by no word character and either preceded by none or one place after another occurrence; else any occurrence |
| FixedMatcher.RescanExactIff | Network Recorder/jni/grep/grep.c:340-368 | `-F -w` is right on every line if and only if the pattern has two distinct characters or a non-word character |
| FixedMatcher.RescanMisreports | Network Recorder/jni/grep/grep.c:362-364 | For every pattern of one repeated word character, that pattern with one more of it is reported although it has no whole word |
| FixedMatcher.RescanNeverMisses | Network Recorder/jni/grep/grep.c:340-368 | No bounded occurrence is missed, for any pattern |
| FixedMatcher.OverlapRepeats | Network Recorder/jni/grep/grep.c:362-364 | Occurrences at neighbouring places force a pattern of one repeated character, preceded by that character |
| FixedMatcher.SelectLine | Network Recorder/jni/grep/grep.c:336-421 | With a pattern list, a line is selected exactly when some pattern matches, inverted under `-v`, although the loop stops early without `-v` |
| Getopt.LastOccurrenceDecides | Network Recorder/jni/grep/getopt32.c:582-587 | After any accepted sequence of occurrences, each flag bit is what the last occurrence that sets or clears it made of it, flipped once for each later toggle |
| Getopt.Exclusion | Network Recorder/jni/grep/getopt32.c:582-583 | Two options that exclude each other are never both set after an accepted sequence |
| Getopt.ParseOptions | Network Recorder/jni/grep/getopt32.c:562-612 | The loop accepts if and only if every occurrence has an entry, no bit of its incongruous mask is then set (as the last occurrence before it that sets or clears that bit, and the toggles, left it), and the result meets the per-option and global requirements and the argument limits. It returns exactly the bits set that way and, for each numeric option that occurred, the number of its last occurrence |
| Getopt.RunsIff | Network Recorder/jni/grep/getopt32.c:562-588 | The same for the fold over the occurrences alone: when no occurrence ends it |
| Getopt.Compile | Network Recorder/jni/grep/getopt32.c:435-518 | The pointer-walking compiler computes the character-level reading of the text, including unknown letters and malformed tails |
| Getopt.CompileSpec | Network Recorder/jni/grep/getopt32.c:435-518 | The text of any list of rules in the documented notation, joined by ':', compiles to the effect of each rule in turn on masks, kinds, counters and limits, where a group adds to each mask of its main option the union of the bits named for it |
| Getopt.GroupMeans | Network Recorder/jni/grep/getopt32.c:486-513 | A group of any letters and marks, bit by bit: a bit is in a mask of the main option if and only if it was before or some letter, sent to that mask by the '?' and '-' before it, names an option that has the bit (or the main option itself after it gained the bit); no other entry changes, nor anything else of this one but the counter |
| Getopt.PairStateMeans | Network Recorder/jni/grep/getopt32.c:499-513 | At every character of a group, the loop's masks have gained exactly the union asked for so far and its target is the mask the marks say |
| Getopt.BuildTable | Network Recorder/jni/grep/getopt32.c:363-388 | The loop over the option string gives one entry a letter, up to 32, in order, with its bit and whether it takes an argument |
| Getopt.TableRead | Network Recorder/jni/grep/getopt32.c:363-388 | For the text of any list of plain letters, with or without arguments, the table has one entry a letter, in order, with its letter, its own bit, whether it takes an argument, and no other mask |
| Getopt.LastContextWins | Network Recorder/jni/grep/grep.c:662-679 | In any table where -C clears -A and -B, the effective after-context is the argument of the last of -A and -C, the before-context that of the last of -B and -C, and zero without any |
| Getopt.GrepContextWins | Network Recorder/jni/grep/grep.c:662-679 | grep's own specification compiles to a table that accepts every sequence of its 24 options, and for which the effective contexts are the arguments of the last of -A and -C, and of -B and -C, or zero |
| HexDump.WriteHex | Network Recorder/jni/tcproxy/tcproxy.cpp:139-202 | For up to 4096 bytes, every write is inside the array of 41 cells a line and two more, and what stands before the terminator is exactly the layout, no cell left unset or overwritten |
| HexDump.LayoutCell | Network Recorder/jni/tcproxy/tcproxy.cpp:139-202 | Where each cell of each line is in the whole text |
| HexDump.ByteShows | Network Recorder/jni/tcproxy/tcproxy.cpp:148-175 | In the dump of up to 4096 bytes, each byte stands as two upper-case digits at its hex column, its line starts with the offset in three digits, and at its text column it stands for itself if it is above 0x20 and below 0x7F, and as a dot otherwise |
| HexDump.LineRest | Network Recorder/jni/tcproxy/tcproxy.cpp:166-198 | Every other cell of a line is a blank, and the newline comes right after the last text column in use |
| HexDump.LayoutEnds | Network Recorder/jni/tcproxy/tcproxy.cpp:195-200 | The dump ends with the last line and one empty line |
| HexDump.DecodeLayout | Network Recorder/jni/tcproxy/tcproxy.cpp:139-202 | The hex columns of the dump decode to the bytes dumped |
| HexDump.PutLine | Network Recorder/jni/tcproxy/tcproxy.cpp:148-198 | One line is filled out of order by the two cursors without touching the lines before |
| Relay.RunConserves | Network Recorder/jni/tcproxy/tcproxy.cpp:224-287 | Over any run of reads, partial writes and failures, in each direction: bytes delivered are a prefix of bytes received and the rest is at most a buffer; the logged chunks of a direction concatenate to what it delivered; no read asks for zero bytes; nothing received, delivered or logged is taken back |
| Relay.RoundMeans | Network Recorder/jni/tcproxy/tcproxy.cpp:224-287 | A round ends the relay if and only if a write fails while bytes are held, select fails, or a socket that is ready and for which there is room is closed or brings no bytes. Otherwise each direction has delivered the least of what was held and what the socket took, and received what was offered, up to the room left after the writes |
| Relay.RunMeans | Network Recorder/jni/tcproxy/tcproxy.cpp:224-287 | Over any script of rounds the relay goes on if and only if no round ends it, said on the script and the numbers of bytes held alone; what it has received is then all that the script brings |
| Relay.Direction.SocketWrite | Network Recorder/jni/tcproxy/tcproxy.cpp:204-222 | What was written is delivered and logged as one chunk, the rest is moved to the front of the buffer, and a write of nothing changes nothing |
| Relay.Direction.ShiftDown | Network Recorder/jni/tcproxy/tcproxy.cpp:213-219 | The overlapping move in place keeps the unwritten bytes in order |
| Relay.Direction.Read | Network Recorder/jni/tcproxy/tcproxy.cpp:253-280 | A read asks for the room left, at least one byte, and appends what came |
| Relay.ServiceClient | Network Recorder/jni/tcproxy/tcproxy.cpp:224-287 | The loop over the two buffers is, round by round, the state machine the run properties are about. It reports that it is still alive exactly when no round of the script ends it, and has then received all that the script brings and holds what is left |
| Relay.HeaderNames | Network Recorder/jni/tcproxy/tcproxy.cpp:210 | A logged chunk is headed C>S when the client sent it and S>C when the server did |
| Numbers.StrtoulNumeral | Network Recorder/jni/iptables/extensions/libxt_u32.c:89-104 | strtoul with base 0 reads every numeral (blanks, sign, decimal, octal, hex) to its value, up to a delimiter |
| Numbers.StrtoulIsNumeral | Network Recorder/jni/iptables/extensions/libxt_u32.c:89-104 | Whatever it accepts is such a numeral |
| Numbers.DigitsMean | Network Recorder/jni/iptables/extensions/libxt_u32.c:89-104 | What a digit stands for, in either case |
| U32.U32Match.ParseArgument | Network Recorder/jni/iptables/extensions/libxt_u32.c:106-246 | The two-state loop stays inside its arrays, ends because each step consumes input, and leaves in them exactly the tests the text denotes, or fails with the error of the first fault |
| U32.ParseIffSentence | Network Recorder/jni/iptables/extensions/libxt_u32.c:31-41 | A text is accepted with a list of tests if and only if it is a sentence of the help grammar, with white space between tokens, that denotes that list, and the list has 1 to 10 tests, locations and values each |
| U32.AcceptedWellFormed | Network Recorder/jni/iptables/extensions/libxt_u32.c:106-246 | Whatever the loop accepts, from any state it can be in, has between 1 and 10 tests, each with between 1 and 10 numbers in its location and 1 and 10 ranges |
| U32.ParseReadsSentence | Network Recorder/jni/iptables/extensions/libxt_u32.c:106-246 | Every sentence is parsed to its meaning, or rejected when its meaning exceeds the limits |
| U32.AcceptedSentence | Network Recorder/jni/iptables/extensions/libxt_u32.c:106-246 | Every accepted text is given back as a sentence with the parsed meaning |
| U32.OperatorsRead | Network Recorder/jni/iptables/extensions/libxt_u32.c:165-182 | What is read as which operator |
| U32.ExampleParses | Network Recorder/jni/iptables/extensions/libxt_u32.c:106-246 | 1=6:7,1&&2=3 is read as the two tests it stands for |
| U32.U32Match.Dump | Network Recorder/jni/iptables/extensions/libxt_u32.c:43-86 | The nested loops print, between quotes, the text of the tests held |
| U32.ParseUndoesDump | Network Recorder/jni/iptables/extensions/libxt_u32.c:43-246 | Parsing the dumped text rebuilds every well-formed list of tests, with any operators and any 32-bit numbers |
| U32.AcceptedReadBack | Network Recorder/jni/iptables/extensions/libxt_u32.c:43-246 | Any accepted text, dumped and parsed again, gives the same tests |
| U32.U32Match.ParseAndDump | Network Recorder/jni/iptables/extensions/libxt_u32.c:43-246 | The program itself: what it leaves in its arrays for an accepted text is dumped as text that is accepted with the same tests |
| Multiport.MultiInfo.Parse | Network Recorder/jni/iptables/extensions/libxt_multiport.c:104-142 | The loop fills ports, flags and count with the packing of the parsed list, clears all other flags, and never writes past the last slot; each error is the first fault's |
| Multiport.MultiInfo.Save | Network Recorder/jni/iptables/extensions/libxt_multiport.c:423-455 | Printing from the packed arrays gives the text of the list they hold |
| Multiport.AcceptedValid | Network Recorder/jni/iptables/extensions/libxt_multiport.c:104-142 | An accepted list is not empty, is made of single ports and strictly increasing ranges, and takes at most 15 slots |
| Multiport.UnpackPacked | Network Recorder/jni/iptables/extensions/libxt_multiport.c:104-142 | The packed arrays determine the list: flags mark range starts only, and each has its follower |
| Multiport.SaveReadBack | Network Recorder/jni/iptables/extensions/libxt_multiport.c:423-455 | Parsing the saved text gives the list back, whatever service names exist |
| Multiport.AcceptedReadBack | Network Recorder/jni/iptables/extensions/libxt_multiport.c:423-455 | So any accepted text survives packing, saving and parsing again |
| Multiport.PortReadBack | Network Recorder/jni/iptables/iptables/xtables.c:430-489 | A port printed in decimal is read back as that port, zero included, although the base is detected from the text |
| Multiport.ServiceNameRead | Network Recorder/jni/iptables/iptables/xtables.c:472-489 | A word that does not start a number is the port of the service of that name, and refused if there is none |
| Multiport.WordsRead | Network Recorder/jni/iptables/extensions/libxt_multiport.c:104-142 | Any words with commas between, each a number or a service name, are read as their ports in order, or refused if there are more than the slots |
| Rates.SaveRestore | Network Recorder/jni/iptables/extensions/libxt_limit.c:40-127 | For every scale and every accepted rate with a nonzero period p, what is printed is accepted and gives p, or p+1 exactly when quotient and remainder of the chosen unit by p tie; never p+1 when the unit printed is the original or a coarser one |
| Rates.CoarserExact | Network Recorder/jni/iptables/extensions/libxt_hashlimit.c:311-330 | Printing a period in its own or a coarser unit and parsing it is exact |
| Rates.DivTwice | Network Recorder/jni/iptables/extensions/libxt_limit.c:108-127 | Dividing twice is the identity up to the tie, under the test the printer uses |
| Rates.DivThrice | Network Recorder/jni/iptables/extensions/libxt_limit.c:40-74 | floor(M/floor(M/floor(M/r))) = floor(M/r) |
| Rates.ParsePrinted | Network Recorder/jni/iptables/extensions/libxt_limit.c:40-74 | A printed count in the range of int and a unit name are parsed as that count of that unit |
| Rates.UnitsMean | Network Recorder/jni/iptables/extensions/libxt_limit.c:40-74 | A bare number is a rate per second; with any nonempty beginning of second, minute, hour or day after the slash it is one per 1, 60, 3600 or 86400 seconds |
| Rates.PrintRate | Network Recorder/jni/iptables/extensions/libxt_limit.c:108-127 | The loop over the table stops at the unit before the first unsuitable one, for any scale |
| Rates.RateDrifts | Network Recorder/jni/iptables/extensions/libxt_limit.c:108-127 | 6967741/day has period 124 and is saved as a rate of period 125 |
| Rates.ZeroPeriod | Network Recorder/jni/iptables/extensions/libxt_limit.c:40-74 | For every scale and text, the period is zero if and only if the unit is known and the number is more than the unit's ticks and less than the unit's seconds times scale plus one |
| Rates.ZeroPeriodAccepted | Network Recorder/jni/iptables/extensions/libxt_limit.c:40-74 | 600059/minute is accepted with period zero |
| RestoreTokenizer.Restore.ParseLine | Network Recorder/jni/iptables/iptables/iptables-restore.c:377-440 | The character loop over its buffers computes the tokenizer's state machine on the line, overruns and table options included |
| RestoreTokenizer.TokenizeUndoesRender | Network Recorder/jni/iptables/iptables/iptables-restore.c:377-440 | Any list of acceptable words, quoted with escapes or bare, separated by spaces and ended by a newline, is recovered exactly and in order |
| RestoreTokenizer.ExampleLine | Network Recorder/jni/iptables/iptables/iptables-restore.c:377-440 | One line with escapes, in characters |
| RestoreTokenizer.WordRead | Network Recorder/jni/iptables/iptables/iptables-restore.c:377-440 | One word and one blank add exactly that word and leave a fresh state |
| RestoreTokenizer.BareThenQuote | Network Recorder/jni/iptables/iptables/iptables-restore.c:381-415 | A quote after bare text goes on with the same argument |
| RestoreTokenizer.TokenizeGrows | Network Recorder/jni/iptables/iptables/iptables-restore.c:96-107 | Arguments once found are never lost or changed |
| RestoreTokenizer.OverrunIff | Network Recorder/jni/iptables/iptables/iptables-restore.c:377-440 | A line writes past the parameter buffer if and only if it has a head that is read without error to the end of an argument, and then an argument whose bare start and quoted text come to 1024 characters and that goes on or is closed |
| RestoreTokenizer.PrintEscaped | Network Recorder/jni/iptables/extensions/libxt_LED.c:95-107 | The printer puts a backslash before each quote and backslash and nothing else |
| StringMatch.StringInfo.ParseHex | Network Recorder/jni/iptables/extensions/libxt_string.c:92-166 | The loop with its two flags stores the hex-string reading in the pattern's 128 cells, with its length, or stops with the first fault's error; an accepted pattern is in its cells if and only if it is shorter than 129 bytes |
| StringMatch.ParseHexIff | Network Recorder/jni/iptables/extensions/libxt_string.c:92-166 | A text is accepted with a pattern if and only if it is made of pieces that stand for it and it has at most 129 bytes. Pieces are plain characters, a backslash and any character, and bars around pairs of hex digits, each with an optional blank after it, with blanks after the opening bar; the text may end in an open block |
| StringMatch.ParseHexReads | Network Recorder/jni/iptables/extensions/libxt_string.c:92-166 | Every text of such pieces is read as the bytes of the pieces one after the other, or refused for its size |
| StringMatch.AcceptedLength | Network Recorder/jni/iptables/extensions/libxt_string.c:160-165 | No accepted pattern is longer than 129 bytes |
| StringMatch.PlainTextAccepted | Network Recorder/jni/iptables/extensions/libxt_string.c:156-165 | Text without bars and backslashes is read as it stands if and only if it has at most 129 characters |
| StringMatch.EmptyPattern | Network Recorder/jni/iptables/extensions/libxt_string.c:92-166 | A hex string is accepted as an empty pattern if and only if it is a bar followed by nothing but spaces |
| StringMatch.ParseHexUndoesPrint | Network Recorder/jni/iptables/extensions/libxt_string.c:226-241 | Any nonempty byte pattern within the limit is given back, with its length, from what is printed between the quotes |
| StringMatch.RestoresIff | Network Recorder/jni/iptables/extensions/libxt_string.c:281-303 | The saved option is tokenized to an option that gives the pattern back if and only if the pattern is not empty, is printable, has no backslash and does not look like a table option |
| StringMatch.PlainSurvives | Network Recorder/jni/iptables/extensions/libxt_string.c:243-254 | The half of it for plain patterns, and the table-option error for those that look like one |
| StringMatch.HexRunsTogether | Network Recorder/jni/iptables/extensions/libxt_string.c:281-303 | Every pattern that needs hex is saved as one run-together argument |
| StringMatch.BackslashLost | Network Recorder/jni/iptables/extensions/libxt_string.c:243-254 | With a backslash in a plain pattern, what is tokenized gives no option and argument that stand for the pattern |
| StringMatch.EmptyLost | Network Recorder/jni/iptables/extensions/libxt_string.c:243-254 | An empty pattern is saved as an option that the tokenizer leaves without an argument |
| StringMatch.IsHexString | Network Recorder/jni/iptables/extensions/libxt_string.c:211-224 | The scan reports exactly the patterns that end in a backslash or have a character that is not printable; for an empty pattern, whether the byte before it is a backslash |
| XmlRules.PartNested | Network Recorder/jni/iptables/iptables/iptables-xml.c:369-522 | The elements of a rule part, at both levels of nesting, are balanced for any arguments |
| XmlRules.PartRead | Network Recorder/jni/iptables/iptables/iptables-xml.c:369-522 | What a part prints, read as elements with what stands in them, is what the rule says, once and in order: for the conditions the arguments from the second on up to the first target flag, for the action those from the target flag on. A match or target is an element with its later arguments in it, a flag an element with its name without dashes, text is in quotes if it was or has a blank, a "!" marks the next flag as inverted, and a target that is a known chain is a call or goto |
| XmlRules.UnitsAreArgs | Network Recorder/jni/iptables/iptables/iptables-xml.c:414-517 | The units so read, a flag or word or a match or target with its name, are the arguments themselves, none lost or changed |
| XmlRules.SkipDashesMeans | Network Recorder/jni/iptables/iptables/iptables-xml.c:483-489 | A flag is named by what follows its leading dashes |
| XmlRules.CompareRules | Network Recorder/jni/iptables/iptables/iptables-xml.c:524-569 | Rules compare equal exactly when they agree up to a first target flag in both and the earlier rule's action is not final |
| XmlRules.FinalActions | Network Recorder/jni/iptables/iptables/iptables-xml.c:524-569 | An action is final exactly when it goes to another chain or jumps to ACCEPT, DROP, QUEUE or RETURN |
| XmlRules.SamePrefixSameConditions | Network Recorder/jni/iptables/iptables/iptables-xml.c:369-522 | Rules that agree up to the target flag, quote marks included, say the same conditions |
| XmlRules.ConditionsIgnoreChains | Network Recorder/jni/iptables/iptables/iptables-xml.c:369-522 | The conditions of a rule do not depend on the chains known so far |
| XmlRules.ActionsAskForLast | Network Recorder/jni/iptables/iptables/iptables-xml.c:403-426 | The action asks only for its last argument among the chains known so far |
| XmlConverter.Converter.Convert | Network Recorder/jni/iptables/iptables/iptables-xml.c:666-870 | A run succeeds if and only if chains, rules and commits stand in tables, no table declares more than 10240 chains and the last table is committed. A run that succeeds closes every tag in order if and only if no rule stands in no chain. Then every declared chain, and no other, is an element in its table, and ungrouping the output gives, in order, each rule of the input with its table, the chain it is in, and what its arguments say of conditions and action, if and only if no combined rule loses its conditions |
| XmlConverter.Converter.DoRule | Network Recorder/jni/iptables/iptables/iptables-xml.c:571-618 | In a chain, the rule is added as one more in that table and chain, with the action its arguments say and the conditions they say, or with those of the open rule when it is combined. Outside any chain, the tags can no longer be closed in order |
| XmlConverter.Converter.NeedChain | Network Recorder/jni/iptables/iptables/iptables-xml.c:276-298 | A declared chain is open afterwards, and pending tags were closed only if it was not open before; for a chain that was not declared nothing changes |
| XmlConverter.Converter.CloseChain | Network Recorder/jni/iptables/iptables/iptables-xml.c:221-237 | All pending tags of the chain are closed, innermost first, and no pair is lost |
| XmlConverter.Converter.FinishChains | Network Recorder/jni/iptables/iptables/iptables-xml.c:314-330 | Every chain declared in the table and not printed yet becomes a closed element of the table; nesting and rules are kept |
| XmlConverter.MergeMeans | Network Recorder/jni/iptables/iptables/iptables-xml.c:571-580 | Combined rules of the usual shape are in the same chain and the later one has conditions; if they were quoted alike, both have the same |
| XmlConverter.RuleFollows | Network Recorder/jni/iptables/iptables/iptables-xml.c:571-618 | One rule line in a chain keeps the relation between the pairs shown, the rules read and the conditions lost |
| XmlConverter.RegularLoses | Network Recorder/jni/iptables/iptables/iptables-xml.c:571-580 | For rules of the usual shape in declared chains, combined only when quoted alike, no rule stands in no chain, and conditions are lost exactly when a rule is combined over the start or end of a table |
| XmlConverter.TwoTablesMerge | Network Recorder/jni/iptables/iptables/iptables-xml.c:684-690 | A run of two tables that succeeds and in which the second table's rule loses its conditions |
| XmlConverter.TwoQuotingsMerge | Network Recorder/jni/iptables/iptables/iptables-xml.c:524-569 | A run of one table that succeeds and in which a rule is combined with one that differs in the quotes of its comment |
| XmlConverter.ConvertLosing | Network Recorder/jni/iptables/iptables/iptables-xml.c:571-618 | Converting these two inputs gives well-nested output from which other rules are read back than were put in |
| XmlConverter.NoChainOrphaned | Network Recorder/jni/iptables/iptables/iptables-xml.c:276-298 | A run that succeeds although its rule stands in no chain |
| XmlConverter.ConvertOrphan | Network Recorder/jni/iptables/iptables/iptables-xml.c:221-237 | Converting it gives output that is not well nested and closed |
| XmlComment.CommentBodyLegal | Network Recorder/jni/iptables/iptables/iptables-xml.c:176-205 | No comment body has "--" or ends in '-', as section 2.5 of XML 1.0 requires |
| XmlComment.UnescapeEscape | Network Recorder/jni/iptables/iptables/iptables-xml.c:176-205 | The comment, without its newline, comes back when the inserted characters are removed |
| XmlComment.HyphensFollowStars | Network Recorder/jni/iptables/iptables/iptables-xml.c:176-205 | Every '-' that is printed comes right after a '*' |
| RuleBlob.GenerateEntry | Network Recorder/jni/iptables/iptables/iptables.c:1235-1261 | The two passes fill the block with the head, its two offsets set, then each match and the target without gap |
| RuleBlob.MakeDeleteMask | Network Recorder/jni/iptables/iptables/iptables.c:763-795 | The mask has the length of the generated entry and is 0xFF exactly on the head and on each extension's header and userspace prefix, and 0 elsewhere |
| RuleBlob.Walk | Network Recorder/jni/iptables/include/linux/netfilter/x_tables.h:122-138 | Walking a generated entry by match size up to the target offset gives back names, revisions and data of the matches, in order |
| RuleBlob.BodyFields | Network Recorder/jni/iptables/iptables/iptables.c:1309-1346 | What the commands allocate reads back as its size, name, revision and data |
| RuleBlob.ExtensionDiffers | Network Recorder/jni/iptables/libiptc/libiptc.c:1889-1914 | Two extensions at the same offset differ under the mask exactly when name, size or userspace data differ |
| RuleBlob.IsSame | Network Recorder/jni/iptables/libiptc/libip4tc.c:176-212 | The lockstep walk stays aligned in both entries and the mask, accepts exactly when heads, match lists and target sizes agree, and ends where the target's mask starts |
| RuleBlob.SameHeadMeans | Network Recorder/jni/iptables/libiptc/libip4tc.c:176-205 | Two heads compare same exactly when addresses, masks, protocol, flags and inversions are equal and each interface name agrees where both masks are set and the masks are equal |
| RuleBlob.Same | Network Recorder/jni/iptables/libiptc/libiptc.c:1916-1950 | Two kept rules compare same under the first one's delete mask if and only if they have the same head, the same matches pairwise and the same target, of any kind: none, a chain, a verdict, or an extension up to what only the kernel uses |
| RuleBlob.MapTarget | Network Recorder/jni/iptables/libiptc/libiptc.c:1667-1739 | Resolving a target's name in place gives its kind, refuses built-in chains and ill-sized verdicts, and changes the entry only for a standard label: its name is cleared, and the four bytes at the target's data, as a signed little-endian number, are -2 for ACCEPT, -1 for DROP, -4 for QUEUE and -5 for RETURN |
| RuleBlob.StandardVerdict | Network Recorder/jni/iptables/libiptc/libiptc.c:1667-1739 | A rule that resolves to a verdict is one whose target is named ACCEPT, DROP, QUEUE or RETURN, and the entry that is kept holds that number |
| RuleBlob.Chain.Append | Network Recorder/jni/iptables/libiptc/libiptc.c:1850-1884 | Appending resolves the target, and unless that is refused adds the rule at the end; a standard target is stored with its verdict |
| RuleBlob.SameResolved | Network Recorder/jni/iptables/libiptc/libiptc.c:1667-1739 | So two generated rules are the same exactly when head, matches and target size agree and the targets have the same name and, if extensions, the same data |
| RuleBlob.Chain.DeleteEntry | Network Recorder/jni/iptables/libiptc/libiptc.c:1959-2029 | Deleting resolves the rule's target, then removes the first rule that is the same and no other; a check finds it and removes nothing; a refused target finds nothing |
| RuleBlob.DeleteAfterAppend | Network Recorder/jni/iptables/libiptc/libiptc.c:1959-2029 | Deleting a rule just appended gives the chain back, unless an earlier rule is the same, which then goes instead |
| RuleBlob.DifferMeans | Network Recorder/jni/iptables/libiptc/libiptc.c:1909-1911 | A masked difference of two bytes is inequality under 0xFF and never under 0 |
| RuleBlob.AgreeMeans | Network Recorder/jni/iptables/iptables/iptables.c:763-795 | Two generated entries agree under the delete mask of the first if and only if their heads are equal and their matches and targets are equal, pairwise, in size, name, revision and userspace data |
| RuleBlob.AgreeIsSame | Network Recorder/jni/iptables/libiptc/libiptc.c:1889-1950 | For extension targets this is the comparison of libiptc together with equal revisions and equal heads |
| RuleBlob.RevisionIgnored | Network Recorder/jni/iptables/libiptc/libiptc.c:1889-1950 | Any rule and the same rule with another revision of its target compare the same, although their entries do not agree under the mask |

## Left out

- Files, sockets, `select`, `fork`, signals and stdio: reads, writes and answers are parameters, output is a sequence.
- libc's regular expressions: in grep the selection of lines is arbitrary. `getservbyport` is a map of names.
- grep: `-o`, `-i`, `-q`, `-l`, `-L`, file names before lines, and runs over several files. The before-buffer outlives
  a file while the position in it starts again at zero, so each run starts from an empty buffer. The extra
  compatibility build, where lines can hold NUL, is off, and counts of lines do not wrap.
- `-x` and `-w` with regular expressions.
- getopt32: long options, options given without a dash, list and counter variables as such (only their masks and
  kinds), and a specification that ends in '=', where the code reads past its end.
- Getopt.ParseOptions: occurrences come as entries with their numbers, which are unbounded integers.
- HexDump.WriteHex: stated for up to 4096 bytes, the relay's buffer; the offset has three digits.
- Relay.ServiceClient: bytes still in a buffer when the connection ends are dropped, as in the code; descriptors of
  the event loop and the DNS part of the proxy are not modelled.
- Numbers.StrtoulNumeral: `unsigned long` has 32 bits, as on the devices the program is built for.
- U32.ParseUndoesDump: the operator in location 0 of a test is unused; it is read as the first operator.
- U32.U32Match.ParseArgument: an error says which fault it is, not the position shown in the message.
- Rates.SaveRestore: the period is not zero, which `ZeroPeriod` says when; `long` and `int` have 32 bits,
  and the burst and the list of units of hashlimit's other options are not modelled. Scale times a day fits in 32 bits.
- RestoreTokenizer.Restore.ParseLine: where the code writes past the parameter buffer the model stops; counters
  before a rule and the reset of the argument list are not modelled.
- StringMatch.StringInfo.ParseHex: the bytes before the pattern and from the kernel's pointer on are not modelled.
- XmlConverter.Converter.Convert: starts from arguments already split, with their quoted marks; counters, policies and
  other attributes of tags, verbose mode and the 255-argument limit are not modelled. Comments of the input are printed
  but are not part of what is read back, and escapes in text are not modelled. Every rule in a table names a chain,
  without which the code compares a null name. A target flag as the last argument makes the code read past the
  arguments; the model gives a final action there.
- RuleBlob.Same: the sizes of a rule fit their 16-bit fields. Options that resize an extension after it was allocated
  are not modelled.
- RuleBlob.Chain.DeleteEntry: a chain is known by its name; renaming chains, reference counts and the position of the
  rule iterator are not modelled.
- RuleBlob.GenerateEntry: address lists that make one rule into several.
- Multiport.MultiInfo.Parse: the form without ranges, and the direction and inversion options around the list.
- The IPv6 twins, the remaining extensions (option tables, flag printing, bit tricks), the floating-point rate
  estimator, netlink, and the kernel side of commit: same algorithms, or settled by one branch, or foreign.
