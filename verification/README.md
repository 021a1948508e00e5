# Nail: a verified model of the parser generator

Nail turns one grammar of a bit-level format into a parser and a printer. This project models
what the emitted code does, for every grammar and every input, and proves that its parts fit
together: the one-pass parser, the two-pass parser with its integer trace, the printer that
writes placeholders and patches them, the bit streams and the arena underneath, and the protocol code
written against them (the DNS message codec, DNS name decompression, the DNS zone index, the DNS
server that answers from it, the Internet checksum and the ZIP end-of-directory scan).

## How it is organised

A grammar is a datatype (`Grammar.dfy`); its meaning is given by functions on bit strings, and
the code the generators emit is given by methods on the stream, trace and buffer classes that are
proved against those functions. Every theorem about the functions is therefore a theorem about
the methods.

| file | contents |
|---|---|
| `Bits.dfy` | bit strings, their numeric values, shifts, or, and, byte buffers as bit strings |
| `MemStream.dfy`, `OutStream.dfy`, `Trace.dfy`, `Arena.dfy`, `StreamCheck.dfy` | the runtime |
| `ArenaUse.dfy` | what one attempt of the one-pass parser does to the arena |
| `Grammar.dfy` | grammars, values, constraints, static progress |
| `DirectSpec.dfy`, `DirectParser.dfy` | the one-pass parser as a function and as it runs |
| `PrintSpec.dfy`, `PrintWhen.dfy`, `Printer.dfy` | the printer as in-order serialisation, what it refuses, and as it runs |
| `PrintParsed.dfy`, `PrintExactly.dfy`, `ParsePrinted.dfy` | print after parse, exactly when it holds, parse after print, exactly when it holds |
| `TwoPassSpec.dfy`, `TraceReplay.dfy`, `TwoPassParser.dfy` | the two-pass parser as functions, its replay, and as it runs |
| `GiveBack.dfy`, `TwoPass.dfy`, `TwoPassWhen.dfy` | its agreement with the one-pass parser, and exactly when arrays, optional parts and repeated constants agree |
| `DnsMessage.dfy`, `DnsWire.dfy`, `DnsGenerate.dfy`, `DnsName.dfy`, `ZoneText.dfy`, `ZoneIndex.dfy`, `DnsServer.dfy`, `Checksum.dfy`, `ZipEnd.dfy` | the protocol code |

The functions that define the meaning of the emitted code, and the source they follow:

- `Grammar.Violates` and `Grammar.Excluded`: generator/util.cc:79-126; `Grammar.Allows` says what the
  constraints mean. `Grammar.WellFormed` is the
  64-bit limit of generator/mk_directparser.cc:28-30 together with static progress of every
  repetition body, `Grammar.Advances`.
- `PrintSpec.Print` and its companions for fields, alternatives, cases and elements:
  generator/mk_gen.cc:24-66 for constants and generator/mk_gen.cc:67-305 for the rest;
  `PrintSpec.Assigns` collects the assignments to dependency variables of lines 225 and 250.
- `Trace.Reserve`, `Trace.Fill` and `Trace.FillOne`: generator/parser_template.c:160-219.
  `TwoPassSpec.Replay`: generator/mk_parser.cc:53-231.
- `PrintParsed.Spelled` says of an input that everything the one-pass parser meets on its path was
  written as the printer writes it: each alternative as its first spelling, each repetition once, and
  each dependency with the value its variable holds once the structure is printed.
- `ParsePrinted.Fits` says of a value that it fits its grammar (widths, constraints, counts, tags);
  `ParsePrinted.Clear` says of the place a text stands at that the parser, where it looks at bits the
  text does not decide, finds what the value says: earlier alternatives, the round behind a
  repetition, of elements or of a constant, and absent parts are rejected there.
- `GiveBack.ReadNothing` says of an input the one-pass parser rejects that it was rejected at its
  first bits; `GiveBack.GivesBack` that every element and optional part it rejected on its path
  was, and that every repeated constant on it ended at a match cut short by the end of the input.
  Both follow the one-pass parser alone.
- `TwoPassSpec.Restores` is the syntactic condition under which the first pass gives back what a
  failed element or optional part read: array elements and optional parts fail without consuming
  (integers, choices, optional parts and wrappers of these), arrays have no separator, repeated
  constants have an alternative as their body.
- `Arena.Malloc`, `Arena.Save`, `Arena.Restore`: generator/parser_template.cc:90-143.
- `DnsName.Follow`: the name that examples/dns/dns.c:2-57 decompresses, one label or pointer at a
  time. `ZoneIndex.FirstAnswer`: a linear scan of the zone file; `ZoneIndex.Suits`: what it looks for, in
  numbers. `DnsWire.InRange` and `DnsWire.Wire`: the messages and their bytes, in numbers.
- `DnsMessage.LABELS`, `DnsMessage.QUESTION`, `DnsMessage.ANSWER`, `DnsMessage.HEADER`: the
  grammar examples/dns/dns.nail:1-40. `PrintExactly.WHITE`: line 41. `ZoneText.ALNUM` and
  `ZoneText.DOMAIN`: lines 44-45.

Where code and intent part, the code is followed, except for the storage of optional parts (see the
end of this file), and the exact condition is a theorem:

- A constant with several spellings is printed as its first one, and a dependency that the value
  does not set as whatever its variable holds: for a whole grammar without repeated constants
  `PrintExactly.PrintAfterParseExactly`, with inputs on which it fails,
  `PrintExactly.SecondSpellingIsLost` and `PrintExactly.DependencyNotSet`. A repeated constant is
  printed once: `PrintExactly.RepeatPrintedWhen`, `PrintExactly.WhiteSpaceIsLost`.
- The first pass does not give back a trailing separator or what a failed element or optional part
  read: `TwoPassWhen.ArrayAgreesWhen`, `TwoPassWhen.OptionalAgreesWhen`,
  `TwoPassWhen.SeparatedAgreesWhen`, with inputs on which it matters, `TwoPass.ElementNotGivenBack`,
  `TwoPassWhen.OptionalNotGivenBack` and `TwoPassWhen.TrailingSeparator`. It leaves a repeated
  constant elsewhere: `TwoPass.RepeatAgreesWhen`, `TwoPassWhen.RepeatedIntApart`.
- Repetitions, choices and optional parts read back depending on what stands around them: for a
  whole grammar `ParsePrinted.ParseAfterPrintExactly`, for a grammar of the zone file
  `ZoneText.DomainReadsBackWhen`, with inputs on which it fails,
  `ParsePrinted.EarlierAlternativeTaken` and `ZoneText.DomainGoesOn`.
- The one-pass entry point accepts up to seven bits of trailing input, the two-pass one none
  (`TwoPass.EntryPointsAgree`, `TwoPass.BitsLeftOver`).
- The bounds check of the C template is exact only for some widths and alignments
  (`StreamCheck.ExactWhen`).
- A request that fits an ordinary pool but not beside its header leaves the pool
  (`Arena.ServedInside`, `Arena.LeavesItsPool`).
- A compression pointer is followed to its low byte only, because of the precedence of `<<` and
  `&` in C (`DnsName.OffsetMeetsStandard`, `DnsName.SamePositionsWhen`,
  `DnsName.FarPointerDiffers`), and a name may never end (`DnsName.EndsSoon`,
  `DnsName.SelfPointerNeverEnds`).
- The zone table has a free slot only from two definitions on (`ZoneIndex.RoomWhen`); with one, a
  search ends only if that definition answers (`ZoneIndex.LookupEndsWhen`).

## Model

| member | source | states |
|---|---|---|
| PrintExactly.PrintAfterParseExactly | generator/mk_gen.cc:44-305 | Print after parse, exactly: for every grammar without repeated constants whose constants fit their widths, the printer gives back exactly the bits the direct parser consumed if and only if every constant met on its path, alternatives inside alternatives included, was written as its first spelling and the variable of every dependency ends up with the value that was read |
| PrintParsed.SpelledPrints | generator/mk_gen.cc:44-305 | for every grammar, repeated constants included: where each constant was written as it is printed and the variable of each dependency ends up with the value that was read, the printer gives back exactly the bits consumed |
| PrintParsed.PrintAfterParse | generator/mk_gen.cc:67-305 | for every grammar whose constants have one spelling and whose dependencies are each set, every value the direct parser returns is printed, and printed as exactly the bits that were consumed, on every input |
| PrintParsed.CanonicalSpelled | generator/mk_gen.cc:44-66 | constants with one spelling, and dependencies that are declared once and always set by a later n_of or select, are always written as they are printed, whatever uninitialised variables hold |
| PrintExactly.PrintedSpelled | generator/mk_gen.cc:67-305 | wherever the text of a parsed value stands at the place it was parsed from, every constant was written as its first spelling, every dependency is the value that was read, and the text is what was consumed |
| PrintExactly.RepeatPrintedWhen | generator/mk_gen.cc:48-49 | a repeated constant is printed back as the input exactly when its first spelling stands there and the repetition ends right behind it |
| PrintExactly.WhiteSpaceIsLost | examples/dns/dns.nail:41 | the white space of the zone grammar, read as two spaces or as none, is printed as one space |
| PrintExactly.WhiteRun | examples/dns/dns.nail:41 | white space is the longest run of bytes that are 32 or 10 |
| PrintExactly.RepeatsCompensate | generator/mk_gen.cc:48-49 | a grammar and an input printed back unchanged although its repeated constants were not written as they are printed: two repetitions make up for each other |
| PrintExactly.LongRepeatCompensated | generator/mk_gen.cc:48-64 | the same with a repetition that takes more than it prints: an alternative read in a shorter spelling makes up for it |
| PrintExactly.DependencyNotSet | generator/mk_gen.cc:232-252 | a grammar and an input on which print after parse fails because no n_of of the value sets the dependency: the count is printed as what its variable happens to hold |
| PrintParsed.Assigned | generator/mk_gen.cc:216-252 | what printing a parsed value stores in a dependency variable is the value that was parsed for it, and a dependency the grammar always sets is stored |
| PrintParsed.ConstText | generator/mk_gen.cc:24-66 | a constant written as it is printed is printed as the bits it matched |
| PrintParsed.PrintManyParsed | generator/mk_gen.cc:253-280 | the elements a repetition accepted, with separators between them, are printed as the bits up to where it stopped |
| ParsePrinted.ParseAfterPrintExactly | generator/mk_directparser.cc:142-487 | Parse after print, exactly: for every grammar without repeated constants whose constants fit their widths, choices, repetitions, separators and optional parts at any depth included: where the text of a value stands, the parser gives the value back and stops behind the text if and only if the value fits its grammar and the text stands clear: no earlier alternative is accepted where the one of the tag stands, no further round behind a repetition, no absent part where it is missing |
| ParsePrinted.ParseAfterPrint | generator/mk_directparser.cc:142-418 | for grammars without choices, open-ended repetitions and optional parts: between any prefix and any suffix the printed form of a value parses back to it and leaves exactly the suffix, if and only if the value fits its grammar |
| ParsePrinted.EntryAcceptsWhen | generator/mk_directparser.cc:526-543 | at the entry point such a text is accepted with fewer than eight bits behind it and refused with more |
| ParsePrinted.PrintedFits | generator/mk_directparser.cc:142-487 | where the text of a parsed value stands at the place it was parsed from, the value fits its grammar and the text stands clear |
| ParsePrinted.AlwaysClear | generator/mk_directparser.cc:142-418 | without choices, open-ended repetitions and optional parts every text stands clear |
| ParsePrinted.EarlierAlternativeTaken | generator/mk_directparser.cc:263-297 | a choice and a value that fits it and does not read back: an earlier alternative accepts its text |
| ParsePrinted.ReadsBack | generator/mk_directparser.cc:69-487 | repeated constants included, the text of a value that fits is read back wherever it stands clear, with the cursor just after it |
| ParsePrinted.RepeatsNotClear | generator/mk_directparser.cc:74-82 | a grammar and a text with repeated constants that read back although the text does not stand clear |
| ParsePrinted.FittingPrints | generator/mk_gen.cc:67-305 | the printer does not fail on a value that fits, whatever the grammar |
| ParsePrinted.ParsedFits | generator/mk_directparser.cc:126-487 | every value the direct parser returns fits its grammar, when every dependency is set by a later n_of or select |
| PrintExactly.UnionPrintedWhen | generator/mk_gen.cc:62-64 | an alternative of constants is printed back as the input exactly when the input matched its first spelling, and the alternatives inside it theirs |
| PrintExactly.SecondSpellingIsLost | generator/mk_gen.cc:62-64 | a grammar and an input on which print after parse fails because a second spelling was read |
| ParsePrinted.ManyReadsBack | generator/mk_directparser.cc:356-371 | parsing a repetition where its text stands clear accepts the printed elements and stops behind them |
| ZoneText.DomainReadsBackWhen | examples/dns/dns.nail:44-45 | a printed domain name, a repetition of repetitions with dots between them, reads back exactly when no letter or digit stands behind it and no dot with a letter or digit behind it |
| ZoneText.LabelsClear | examples/dns/dns.nail:45 | the dots keep the labels apart, so only what is behind the last one matters |
| ZoneText.CharsClear | examples/dns/dns.nail:44-45 | the characters of a label stand clear exactly when none stands behind them |
| ZoneText.DomainGoesOn | examples/dns/dns.nail:44-45 | a name and a letter behind it that are read as one name |
| Grammar.RejectedWhen | generator/util.cc:79-126 | the generated tests reject exactly the numbers a constraint does not allow: a single value allows that number, a range those between its bounds where it has them, a set those of any element, a negation the others |
| DirectSpec.IntAcceptedWhen | generator/mk_directparser.cc:126-141 | an integer is accepted exactly when it is inside the input and one of the numbers its constraint allows, and its value is the number of those bits |
| DirectSpec.ParseConst | generator/mk_directparser.cc:69-125 | a constant never reads past the end, and one that advances ends strictly after its start |
| DirectSpec.ParseRepeat | generator/mk_directparser.cc:74-82 | repeating a constant ends on every input, never fails and stays inside the stream |
| DirectSpec.ParseUnion | generator/mk_directparser.cc:98-122 | an alternative of constants that fails leaves the cursor where it started |
| DirectSpec.Parse | generator/mk_directparser.cc:242-487 | total on every grammar and input: a success ends inside the stream, at or after its start, strictly after it when the grammar advances |
| DirectSpec.ParseFields | generator/mk_directparser.cc:142-239 | a structure that succeeds ends inside the stream, strictly ahead when one of its fields advances |
| DirectSpec.ParseAlts | generator/mk_directparser.cc:263-297 | a choice advances when each of its alternatives does |
| DirectSpec.ParseCases | generator/mk_directparser.cc:298-313 | a select advances when each of its cases does |
| DirectSpec.ParseMany | generator/mk_directparser.cc:314-392 | many, many1 and sepBy end on every input, inside the stream, back at the start exactly when no element was accepted |
| DirectSpec.ParseN | generator/mk_directparser.cc:394-418 | a counted array has exactly the number of elements asked for |
| DirectParser.MatchConst | generator/mk_directparser.cc:69-125 | the emitted matching of a constant ends where the specification says, also when it fails |
| DirectParser.MatchConsts | generator/mk_directparser.cc:93-97 | constants are matched in order and the first failure ends the match where it happened |
| DirectParser.MatchUnion | generator/mk_directparser.cc:98-122 | every alternative starts from the same place, and a failure leaves the cursor there |
| DirectParser.ReadInt | generator/mk_directparser.cc:126-141 | the emitted code accepts an integer exactly when it is inside the input and its number is one its constraint allows |
| DirectParser.Run | generator/mk_directparser.cc:242-487 | the emitted parser, with its rewinds, succeeds exactly when the specification does, with the same value and the same cursor |
| DirectParser.RunFields | generator/mk_directparser.cc:142-239 | a structure is parsed field by field with the dependencies read so far in scope |
| DirectParser.RunAlts | generator/mk_directparser.cc:263-297 | the first alternative that succeeds from the common start is taken and tagged |
| DirectParser.RunCases | generator/mk_directparser.cc:298-313 | the case named by the dependency is taken; none is a failure |
| DirectParser.RunMany | generator/mk_directparser.cc:314-392 | the loop over the backward linked list returns the elements accepted in parse order and stops just after the last |
| DirectParser.RunRound | generator/mk_directparser.cc:357-379 | a round that fails, in its separator or its element, drops its list node and rewinds the stream to where the round began |
| DirectParser.Drain | generator/mk_directparser.cc:384-391 | draining the list backwards fills the array with the elements in parse order |
| DirectParser.OneMore | generator/mk_directparser.cc:356-379 | an accepted element moves the cursor strictly forward and joins those gathered; otherwise the loop is done where the round began |
| DirectParser.RunN | generator/mk_directparser.cc:394-419 | a counted array parses that many elements in order or fails |
| DirectParser.OneMoreOf | generator/mk_directparser.cc:398-399 | an accepted element joins those parsed, and a rejected one fails the array |
| DirectParser.ParseBuffer | generator/mk_directparser.cc:526-543 | the emitted entry point accepts exactly the buffers the specification accepts with fewer than eight bits left over, with its value |
| TwoPass.TwoPassEqualsOnePassOn | generator/mk_parser.cc:408-658 | Two-pass equals one-pass, input by input: for every grammar without select, separators and repeated constants included, from any position and any trace, where the failed elements and optional parts had read nothing and every repeated constant on the path is left by both parsers at the same place, recognition succeeds exactly when the direct parser does, at the same bit, and the replay of the trace, whatever follows it, builds the same value and ends at its end |
| TwoPass.TwoPassEqualsOnePass | generator/mk_parser.cc:408-658 | for every grammar that restores, the same on every input |
| GiveBack.RestoresGivesBack | generator/mk_parser.cc:432-481 | a grammar that restores gives back on every input |
| GiveBack.NothingRead | generator/mk_parser.cc:305-320 | a part that fails in place is rejected at its first bits |
| TwoPass.RecogniseAgrees | generator/mk_parser.cc:482-658 | on such inputs the first pass accepts exactly what the direct parser accepts, at the same place, and where it fails it is back at its start exactly if the direct parser was rejected at the first bits |
| TwoPass.ReplayAgrees | generator/mk_parser.cc:53-231 | on such inputs the second pass rebuilds the value of the direct parser at its position |
| TwoPass.ArrayStops | generator/mk_parser.cc:432-454 | the first pass accepts the elements of an array the direct parser accepts and stops where it stops exactly when the failed round had read nothing |
| TwoPass.ConstAgrees | generator/mk_parser.cc:345-396 | where no repetition is left at different places, backing up over a wrong constant makes no difference to which constants match and where they end |
| GiveBack.SteadyAlike | generator/mk_parser.cc:345-396 | constants whose repetitions repeat alternatives are matched alike by both parsers on every input |
| TwoPass.ConstFailsAt | generator/mk_parser.cc:321-396 | a constant that fails leaves the first pass at its start exactly when no part of it was accepted |
| TwoPass.EntryPointsAgree | generator/mk_parser.cc:258-277 | on whole bytes that give everything back, the two entry points accept the same inputs and return the same value, except that the direct one also accepts one to seven bits left over |
| TwoPass.BitsLeftOver | generator/mk_parser.cc:258-277 | a grammar for which every one-byte input is accepted by the one entry point and rejected by the other |
| TwoPassWhen.ManyStopped | generator/mk_directparser.cc:356-379 | where an array stops, another round fails |
| TwoPassWhen.ArrayAgreesWhen | generator/mk_parser.cc:432-454 | for arrays with any separator, acceptance and the replayed value always agree with the direct parser, and the cursors agree exactly when the round that failed, separator and element, was rejected by the direct parser at its first bits |
| TwoPassWhen.OptionalAgreesWhen | generator/mk_parser.cc:471-481 | for optional parts the cursors agree exactly when the direct parser accepts the part or rejects it at its first bits |
| TwoPassWhen.OptionalNotGivenBack | generator/mk_parser.cc:471-481 | an optional part and an input on which the first pass goes on behind a byte the direct parser gives back |
| TwoPassWhen.FailureHidden | generator/mk_parser.cc:345-396 | a grammar and an input on which both parsers agree although an optional part was not given back: a repeated constant makes up for it |
| TwoPass.RepeatAgreesWhen | generator/mk_parser.cc:350-358 | both parsers take the same run of matches of a repeated constant, and end at the same place exactly when the match that failed was cut short by the end of the input |
| TwoPassWhen.RepeatedIntAgreesWhen | generator/mk_parser.cc:350-358 | for a repeated integer: exactly when fewer bits than one more takes are left |
| TwoPassWhen.RepeatedIntApart | generator/mk_parser.cc:350-358 | an input on which a repeated integer leaves the direct parser behind the byte it rejected and the first pass in front of it |
| TwoPass.FailureAgreesWhen | generator/mk_parser.cc:321-326 | a failed constant leaves both parsers at the same place exactly when its failed integer ran out of input |
| TwoPassWhen.SeparatedAgrees | generator/mk_parser.cc:432-454 | with parts that fail in place both parsers accept the same elements, and the first pass is ahead exactly by a separator behind the last of them |
| TwoPassWhen.SeparatedAgreesWhen | generator/mk_parser.cc:432-454 | with any separator and elements that fail in place, acceptance and the replayed value always agree with the direct parser, and the cursors exactly when no separator stands behind the last element |
| TwoPassWhen.TrailingSeparator | generator/mk_parser.cc:432-454 | an array and an input on which the first pass goes on behind a separator the direct parser gives back |
| TwoPass.ElementNotGivenBack | generator/mk_parser.cc:444-452 | a grammar and inputs on which the first pass keeps the part of a failed element that the direct parser gives back |
| TraceReplay.ReplayExact | generator/mk_parser.cc:101-216 | Trace replay is exact, for every grammar without select: after a successful first pass, with any garbage of failed alternatives and elements in the trace and anything behind it, the replay reads only filled slots, jumps only forward inside the trace, is never stuck, ends at the end of the trace and never runs ahead of the input position |
| TraceReplay.ChoiceExact | generator/mk_parser.cc:101-121 | a choice jumps over the traces of the alternatives that failed to the one taken |
| TraceReplay.ArrayExact | generator/mk_parser.cc:153-196 | an array replays its counted elements and jumps over what the failed one left |
| TwoPassSpec.PegConst | generator/mk_parser.cc:397-400 | a constant adds one slot when it matches and none when it fails |
| TwoPassSpec.TraceOfOptional | generator/parser_template.c:160-171 | the slot of an optional part holds -1, or the slot behind what its failure left |
| TwoPassSpec.TraceOfArray | generator/parser_template.c:172-187 | the slots of an array hold the number of its elements and the slot behind it |
| TwoPassSpec.TraceOfChoice | generator/parser_template.c:189-219 | the slots of a choice hold the tag of the alternative taken, counted from 0, and the slot its trace starts at |
| TwoPassSpec.Recognise | generator/mk_parser.cc:482-658 | the first pass only appends to the trace it was given, stays inside the input and advances when the grammar does |
| TwoPassSpec.RecogniseFields | generator/mk_parser.cc:487-568 | the fields of a structure only append to the trace |
| TwoPassSpec.RecogniseAlts | generator/mk_parser.cc:408-431 | a choice that fails is back at its start, with the traces of its alternatives kept |
| TwoPassSpec.RecogniseN | generator/mk_parser.cc:604-625 | a counted array only appends to the trace and advances when its elements do |
| TwoPassSpec.RecogniseMany | generator/mk_parser.cc:432-454 | repetition ends on every input, having moved strictly forward when it counted an element |
| TwoPassParser.PegInto | generator/mk_parser.cc:482-658 | the emitted first pass leaves stream and trace array exactly as specified, on success and on failure |
| TwoPassParser.PegArray | generator/mk_parser.cc:432-454 | an array fills its two slots with the count and the end of its trace, also when it has too few elements |
| TwoPassParser.PegOptional | generator/mk_parser.cc:471-481 | an optional part fills its slot with its mark or with the end of what its failure appended |
| TwoPassParser.PegConstInto | generator/mk_parser.cc:345-396 | the emitted matching of a constant, with its backing up, ends where the specification says, also when it fails |
| TwoPassParser.PegConstUnion | generator/mk_parser.cc:374-391 | alternatives of constants start from the same place, and a failure leaves the cursor there |
| TwoPassParser.PegTracedConst | generator/mk_parser.cc:397-400 | a constant that matches leaves the bit position after it in the trace |
| TwoPassParser.PegInt | generator/mk_parser.cc:305-320 | an integer is skipped or read and backed over; it is accepted exactly when it is inside the input and its number is one its constraint allows, and a failure leaves the cursor in place |
| TwoPassParser.PegChoice | generator/mk_parser.cc:408-431 | the two reserved slots end up with the tag and start of the alternative taken, and every failed one is rewound |
| TwoPassParser.PegAlts | generator/mk_parser.cc:417-427 | the tag and the first slot of the first alternative that succeeds, with the garbage of the failed ones kept in the trace |
| TwoPassParser.PegRepeat | generator/mk_parser.cc:432-454 | the loop counts the elements the specification counts and stops where it stops |
| TwoPassParser.PegElement | generator/mk_parser.cc:438-446 | one round: the separator, except the first time, and the element |
| TwoPassParser.PegTimes | generator/mk_parser.cc:604-621 | a counted loop recognises that many elements or stops at the first failure |
| TwoPassParser.PegDependency | generator/mk_parser.cc:497-521 | a dependency is read from a copy of the stream and leaves exactly one slot, the position after it |
| TwoPassParser.PegFields | generator/mk_parser.cc:487-568 | fields are recognised in order with the dependencies read so far in scope |
| TwoPassParser.PegLength | generator/mk_parser.cc:613-625 | an n_of fills its two slots with the count and the end of its trace |
| TwoPassParser.Bind | generator/mk_parser.cc:53-231 | the emitted second pass, on a trace on which the replay is not stuck, returns the replayed value, cursor and input position |
| TwoPassParser.BindConst | generator/mk_parser.cc:44-50 | the stream is moved to the traced position and the cursor by one slot |
| TwoPassParser.BindFields | generator/mk_parser.cc:60-87 | the fields of a structure are rebuilt in order |
| TwoPassParser.BindAlts | generator/mk_parser.cc:101-121 | the alternative of the traced tag is rebuilt from the slot the trace jumps to |
| TwoPassParser.BindArray | generator/mk_parser.cc:153-196 | the array filled in place holds the replayed elements and the cursor jumps to the saved slot |
| TwoPassParser.BindTimes | generator/mk_parser.cc:183-203 | the loop fills the array with the replayed elements, skipping the separators |
| TwoPassParser.ParseBuffer | generator/mk_parser.cc:258-277 | the emitted entry point, with its growing trace array, accepts and returns what the specification says; its second pass can never be stuck |
| Trace.NailTrace.constructor | generator/parser_template.c:117-132 | an empty trace that can be written to |
| Trace.NailTrace.Grow | generator/parser_template.c:147-159 | makes room for the slots asked for and loses none |
| Trace.NailTrace.Const | generator/parser_template.c:220-229 | appends one filled slot, growing when needed |
| Trace.NailTrace.SetPos | generator/parser_template.c:143-146 | cuts the trace back to an earlier length, and says whether the assertion on the capacity holds |
| Trace.NailTrace.MemoOptional | generator/parser_template.c:160-165 | appends one slot that is not data yet and returns its index |
| Trace.NailTrace.OptionalSucceed | generator/parser_template.c:166-168 | fills that slot with the mark of a present part |
| Trace.NailTrace.OptionalFail | generator/parser_template.c:169-171 | fills that slot with the position after everything the failed part appended |
| Trace.NailTrace.MemoMany | generator/parser_template.c:172-180 | appends two slots that are not data yet and returns the first |
| Trace.NailTrace.WriteMany | generator/parser_template.c:181-187 | fills them with the count and the current end, changing nothing else |
| Trace.NailTrace.BeginChoice | generator/parser_template.c:189-198 | appends two slots that are not data yet and returns the first |
| Trace.NailTrace.PickChoice | generator/parser_template.c:213-219 | fills them with the tag and the start of the alternative, changing nothing else |
| PrintWhen.PrintsWhen | generator/mk_gen.cc:67-305 | What the printer refuses, for every grammar: it fails exactly on values that do not have the shape of their grammar or in which some integer field is not one of the numbers its constraint allows; widths, dependencies and missing elements are not looked at |
| PrintWhen.UnknownTagPrintsNothing | generator/mk_gen.cc:201-215 | a tag that names no alternative is printed as nothing |
| Printer.BackPatching | generator/mk_gen.cc:81-175 | Back-patching is invisible: behind any prefix, at any bit alignment, writing placeholders first and patching them in order of the fields leaves exactly the in-order text with the final dependency values |
| Printer.SameShape | generator/mk_gen.cc:96-113 | whether a structure prints and how many bits it takes do not depend on the values of its dependencies |
| Printer.HolesInside | generator/mk_gen.cc:96-113 | every placeholder lies inside the text of its structure |
| Printer.Patch | generator/mk_gen.cc:111-112 | repositioning and rewriting every placeholder in the buffer has the effect of the patches on the bit string before the end, and loses nothing through growth |
| Printer.EmitStruct | generator/mk_gen.cc:81-175 | after the patches the cursor is back at the end of the structure, the buffer before it is what was there followed by the in-order text, and the variables of the structure are out of scope |
| Printer.EmitFields | generator/mk_gen.cc:86-166 | the first run over the fields writes the text with zeros for the dependencies, records every placeholder and makes the assignments |
| Printer.EmitElems | generator/mk_gen.cc:253-287 | elements with separators between them are appended in order |
| Printer.EmitWrap | generator/mk_gen.cc:187-199 | the constants of a wrapper are appended around the text of what it wraps |
| Printer.EmitCases | generator/mk_gen.cc:216-231 | the case of the tag is printed after its number was stored in the dependency |
| Printer.EmitAlts | generator/mk_gen.cc:201-215 | the alternative of the tag is printed; a tag that names none prints nothing |
| Printer.EmitConst | generator/mk_gen.cc:44-66 | appends the first spelling of a constant, a repeated one once |
| Printer.EmitConsts | generator/mk_gen.cc:57-61 | appends the constants in order |
| Printer.Append | generator/parser_template.cc:58-83 | a write at the cursor appends the low bits of the value to what was written before |
| Printer.Emit | generator/mk_gen.cc:67-305 | the emitted printer succeeds exactly on values of the right shape whose integers their constraints allow, appends exactly the text of the specification to what was written before and makes exactly its assignments |
| Printer.EmitBuffer | generator/parser_template.cc:39-44 | a buffer is returned exactly when the value prints to whole bytes, and its bits are the text |
| MemStream.NailMemStream.Check | include/nail/memstream.hh:24-28 | succeeds exactly when that many bits are left |
| MemStream.NailMemStream.Rewind | include/nail/memstream.hh:30 | the cursor is the saved one |
| MemStream.NailMemStream.ReadUnsignedBig | include/nail/memstream.hh:36-67 | for every alignment and count up to 64 that passes the check, the byte path and the bit path together return the most-significant-first value of the next bits, and the cursor moves by exactly count |
| MemStream.NailMemStream.ReadUnsignedLittle | include/nail/memstream.hh:68-97 | the same with the least significant bit first |
| MemStream.BigByte | include/nail/memstream.hh:45-50 | the byte path: or-ing a shifted byte into the accumulator appends its eight bits |
| MemStream.BigBit | include/nail/memstream.hh:51-62 | the bit path: or-ing one shifted bit appends it |
| MemStream.LittleByte | include/nail/memstream.hh:75-80 | the byte path of the little-endian reader |
| MemStream.LittleBit | include/nail/memstream.hh:81-92 | the bit path of the little-endian reader |
| MemStream.NailMemStream.Advance | generator/parser_template.c:81-89 | the cursor moves forward by exactly count bits |
| MemStream.NailMemStream.Backup | generator/parser_template.c:93-100 | the cursor moves back by exactly count bits |
| StreamCheck.ExactWhen | generator/parser_template.c:76-80 | the check of the C template agrees with the exact one, on every large enough buffer and cursor, exactly for whole bytes at a byte boundary and for fields inside one byte that start behind a boundary |
| StreamCheck.ShortBufferPasses | generator/parser_template.c:76-80 | on a buffer shorter than the whole bytes asked for it always passes, wrongly |
| OutStream.NailOutStream.Grow | generator/parser_template.cc:46-57 | the buffer keeps its contents and has room for count more bits |
| OutStream.NailOutStream.Write | generator/parser_template.cc:58-83 | from any alignment, exactly the count bits at the cursor become the low bits of the value; all other bits survive, also through growth |
| OutStream.NailOutStream.PutByte | generator/parser_template.cc:64-68 | the byte path changes exactly eight bits |
| OutStream.NailOutStream.PutBit | generator/parser_template.cc:69-80 | the bit path changes exactly one bit |
| OutStream.NailOutStream.Reposition | generator/parser_template.cc:15-20 | the cursor is at the bit position given |
| OutStream.NailOutStream.AppendBytes | examples/dns/dns.c:59-64 | the bytes are appended behind the whole bytes written, whatever the bit offset, which stays |
| OutStream.SetBit | generator/parser_template.cc:71-72 | or-ing the mask sets the addressed bit and no other |
| OutStream.ClearBit | generator/parser_template.cc:73-74 | and-ing the complemented mask clears the addressed bit and no other |
| OutStream.ReadBack | generator/parser_template.cc:58-83 | writer and reader undo each other: the written bits read back as the value modulo 2^width, every other field as before |
| Arena.KeptBlocksAreNeverOverwritten | generator/parser_template.cc:134-143 | Arena backtracking is safe: over any run of allocations, saves, restores and forgotten saves, the blocks live when a mark was taken stay live and overlap no block handed out later, however often the arena is restored down to that mark |
| Arena.LiveBlocksAreApart | generator/parser_template.cc:90-143 | at the end of any legal run all live blocks lie in their pools and are pairwise disjoint |
| Arena.ServedInside | generator/parser_template.cc:90-110 | a request is served inside its pool if and only if the current pool has more room than it needs, or it fits an ordinary pool beside the header, or it is larger than one |
| Arena.LeavesItsPool | generator/parser_template.cc:90-110 | a new arena and a request whose block ends six bytes behind its pool |
| Arena.MallocKeeps | generator/parser_template.cc:90-110 | an allocation keeps live blocks disjoint, inside their pools and below every open mark |
| Arena.RestoreKeeps | generator/parser_template.cc:139-143 | so does restoring any open mark, any number of times |
| Arena.RestoreUndoes | generator/parser_template.cc:134-143 | after any number of requests, restoring the arena takes it back to the pool and the fill it was saved at |
| Arena.ServedAgain | generator/parser_template.cc:90-143 | so the same request gets the same block again |
| Arena.StepKeeps | generator/parser_template.cc:90-143 | every step of a run keeps live blocks disjoint, inside their pools and below the marks they belong to |
| Arena.KeptByStep | generator/parser_template.cc:90-143 | no step disturbs the blocks below the floor or hands out one that overlaps them |
| Arena.NewBlockApart | generator/parser_template.cc:90-110 | a new block lies inside its pool and apart from every live block |
| Arena.NailArena.NMalloc | generator/parser_template.cc:90-110 | for every request: the new block has the size asked for and joins the live ones, and the arena stays valid, the block inside its pool and apart from every live block, exactly when the request is served inside a pool |
| Arena.NailArena.Room | generator/parser_template.cc:93-105 | a new pool is made current exactly when the current one has no room |
| Arena.NailArena.NSave | generator/parser_template.cc:134-138 | the mark remembers the blocks that are live now |
| Arena.NailArena.NRestore | generator/parser_template.cc:139-143 | exactly the blocks live when the mark was taken are live again, and the mark can be restored once more |
| Arena.NailArena.constructor | generator/parser_template.cc:112-123 | one pool of at least the smallest size, with no live block |
| ArenaUse.ResultBlocksAreSafe | generator/mk_directparser.cc:242-487 | parse results are safe, for every grammar and input: when every request was served inside a pool, the blocks added by a successful parse are exactly the arrays of its value, in order, they lie inside their pools, apart from each other and from every earlier live block, and those are kept; what failed alternatives, rounds and optional parts allocated has been given up |
| ArenaUse.UseAdds | generator/mk_directparser.cc:242-487 | the blocks a successful parse adds to the live ones are the arrays of the value it returns |
| ArenaUse.Use | generator/mk_directparser.cc:263-470 | every attempt, successful or not, leaves the open marks and all earlier live blocks as they were |
| ArenaUse.ManyAdds | generator/mk_directparser.cc:339-391 | a repetition keeps the blocks of the elements it accepted and none of the failed round |
| DnsWire.FitsWhen | examples/dns/dns.nail:1-40 | the messages that meet the widths and constraints, in numbers: labels of 1 to 64 bytes, types 1 to 16, classes 1 or 255 in questions and 1 in answers, flags of one bit, opcode and response code below 16, all else below 2^16 or 2^32 |
| DnsWire.MessageOnWire | examples/dns_cpp/dns/dns.nail.c:1334-1479 | A message on the wire, byte by byte: twelve bytes of header, then the questions, each its name, type and class, then the answers of three sections, each its name, type, class, four bytes of time to live, two bytes of length and the data |
| DnsWire.HeaderOnWire | examples/dns_cpp/dns/dns.nail.c:1421-1441 | the header is the identifier high byte first, 128 qr + 8 opcode + 4 aa + 2 tc + rd, 128 ra + the response code, and the four lengths high byte first |
| DnsWire.QuestionOnWire | examples/dns_cpp/dns/dns.nail.c:1374-1391 | behind the name of a question stand its type and its class, two bytes each |
| DnsWire.AnswerOnWire | examples/dns_cpp/dns/dns.nail.c:1392-1419 | behind the name of an answer stand type, class, time to live, length and data |
| DnsWire.PrintedNumbers | examples/dns_cpp/dns/dns.nail.c:1374-1419 | in every message that is printed the types are 1 to 16, the classes of questions 1 or 255 and those of answers 1 |
| DnsWire.QuestionPrintsWhen | examples/dns_cpp/dns/dns.nail.c:1374-1391 | a question is printed exactly when its type is 1 to 16 and its class 1 or 255 |
| DnsWire.AnswerPrintsWhen | examples/dns_cpp/dns/dns.nail.c:1392-1419 | the fields of an answer are printed exactly when its type is 1 to 16 and its class 1 |
| DnsWire.ParsedNumbers | examples/dns_cpp/dns/dns.nail.c:376-750 | every message the parser returns is in these ranges |
| DnsWire.ParsedHeader | examples/dns_cpp/dns/dns.nail.c:619-701 | the first twelve bytes of every buffer that parses are the header of the message returned |
| DnsWire.ParsedQuestion | examples/dns_cpp/dns/dns.nail.c:504-530 | the four bytes the parser read last of a question, whatever its name was compressed to, are its type and class |
| DnsWire.ParsedAnswer | examples/dns_cpp/dns/dns.nail.c:548-618 | the bytes the parser read behind the name of an answer are its type, class, time to live, length and data |
| DnsWire.WireParses | examples/dns_cpp/dns/dns.nail.c:619-750 | the bytes of a message in range parse to that message, whatever follows them, and the parser stops at their end |
| DnsMessage.RecoveredExactlyWhen | examples/dns_cpp/dns/dns.nail.c:376-750 | the DNS message round trip (sections 4.1.1 to 4.1.3 of RFC 1035): a message is recovered, to the last byte, from what the printer wrote for it if and only if it meets the widths and constraints of the grammar |
| DnsMessage.ReprintedMessageRecovered | examples/dns_cpp/dns/dns.nail.c:619-750 | whatever buffer a message was parsed from, compressed names included, printing it and parsing again gives the same message |
| DnsGenerate.GenDnspacket | examples/dns_cpp/dns/dns.nail.c:1420-1479 | the emitted printer, with its zeros for the four counts and the patches at the end, appends the bytes on the wire of every message in range, and returns false where a type or class of a question or answer is out of range |
| DnsGenerate.PrintMessage | examples/dns_cpp/dns/dns.nail.c:1420-1479 | what is returned for a message in range are its bytes on the wire, which parse back to it, to the last byte; nothing is returned where a type or class is out of range |
| DnsGenerate.CountsPatched | examples/dns_cpp/dns/dns.nail.c:1466-1477 | patching the four zeros puts the counts there and changes nothing before or behind them |
| DnsGenerate.PatchCounts | examples/dns_cpp/dns/dns.nail.c:1466-1477 | moving back to each placeholder and to the end again does so in the buffer |
| DnsGenerate.Placeholders | examples/dns_cpp/dns/dns.nail.c:1430-1441 | four zero counts are written and their places remembered |
| DnsGenerate.HeaderText | examples/dns_cpp/dns/dns.nail.c:1421-1441 | the header is the fixed fields and the four counts |
| DnsGenerate.GenCompressed | examples/dns_cpp/dns/dns.nail.c:1353-1373 | a name is printed to a stream of its own and its bytes appended to the message |
| DnsGenerate.GenNamed | examples/dns_cpp/dns/dns.nail.c:1374-1419 | a question or answer is its name and the fields behind it |
| DnsGenerate.GenSection | examples/dns_cpp/dns/dns.nail.c:1442-1446 | the entries of a section are appended in order, or the printer fails at the first that does not print |
| DnsGenerate.GenBody | examples/dns_cpp/dns/dns.nail.c:1442-1465 | the four sections are appended in order |
| DnsMessage.MessageRoundTrip | examples/dns_cpp/dns/dns.nail.c:619-750 | any buffer that begins with the text of a fitting message parses to that message, and the parser stops behind it |
| DnsMessage.ParsedMessageFits | examples/dns_cpp/dns/dns.nail.c:619-750 | every message the parser returns meets the widths and constraints, and its counts are the lengths of its sections |
| DnsMessage.LabelsReadBack | examples/dns_cpp/dns/dns.nail.c:376-445 | the unbounded label list reads back label by label and ends exactly at the zero byte |
| DnsMessage.NoLabelAtZero | examples/dns_cpp/dns/dns.nail.c:397-405 | a zero byte is never taken for the length of a label |
| DnsMessage.NameText | examples/dns_cpp/dns/dns.nail.c:1334-1352 | a printed name is its labels behind their lengths, then a zero byte |
| DnsMessage.FollowEncoded | examples/dns/dns.c:59-64 | decompressing an uncompressed name returns it unchanged and stops behind its zero |
| DnsMessage.NamedReadsBack | examples/dns_cpp/dns/dns.nail.c:463-618 | a question or answer reads back through the decompression, with the message continuing just after it |
| DnsMessage.PointerReadsBack | examples/dns_cpp/dns/dns.nail.c:463-503 | a pointer stands for the name it points to: that name is read, and the message goes on behind the two bytes of the pointer |
| DnsMessage.SectionReadsBack | examples/dns_cpp/dns/dns.nail.c:702-745 | a section reads back with as many entries as were printed |
| DnsName.DnscompressParse | examples/dns/dns.c:2-57 | for a name that ends: fails off a byte boundary or when the walk leaves the message, otherwise returns the decoded name, followed by one zero for every pointer, and the position after the first pointer or the zero |
| DnsName.SizingPass | examples/dns/dns.c:8-32 | for any decoding of pointers, the size found is the length of the decoded name plus the number of pointers followed; the outer position is that of the decoder |
| DnsName.CopyingPass | examples/dns/dns.c:33-56 | for any decoding of pointers shared with the first loop, the second visits the same positions, stays inside both buffers and writes exactly the decoded name |
| DnsName.CopyBytes | examples/dns/dns.c:48 | copies a label into its place and touches nothing behind it |
| DnsName.Ahead | examples/dns/dns.c:9-32 | one round of either loop moves to the next position of the walk, which is strictly closer to its end |
| DnsName.EndsSoon | examples/dns/dns.c:9-32 | the loops end at all if and only if they end within one round more than the message has bytes |
| DnsName.FollowMore | examples/dns/dns.c:9-32 | the decoded name does not depend on how many rounds are allowed |
| DnsName.Visited | examples/dns/dns.c:9-32 | a walk that ends never visits a position twice |
| DnsName.SelfPointerNeverEnds | examples/dns/dns.c:21-28 | a name that points to itself is followed forever |
| DnsName.OffsetIsLowByte | examples/dns/dns.c:27 | the pointer expression of both loops yields the low byte alone |
| DnsName.OffsetMeetsStandard | examples/dns/dns.c:45 | a pointer is followed to where section 4.1.4 of RFC 1035 says if and only if its offset is below 256 |
| DnsName.NearDecodesAlike | examples/dns/dns.c:9-54 | a name all of whose pointers, as the code meets them, have offsets below 256 is decoded as the standard says, whatever else is in the message |
| DnsName.SamePositionsWhen | examples/dns/dns.c:9-54 | the code and the standard visit the same positions for a name if and only if every pointer the code meets has an offset below 256 |
| DnsName.FarPointerDiffers | examples/dns/dns.c:27 | a message and a name the two decode differently |
| ZoneIndex.Lookup | examples/dns/server.c:101-143 | where it ends, the probing search returns the first definition in zone order that suits: of the name asked for, and an alias, or of the type asked for (2, 15, or 1 with four parts), or any for 255; none exactly when no definition suits |
| ZoneIndex.LookupEndsWhen | examples/dns/server.c:103 | the search of a question ends if and only if the zone has at least two definitions or its only definition answers |
| ZoneIndex.EntryAnswers | examples/dns/server.c:104-126 | the tests on an entry, hash first, select exactly the definitions that answer |
| ZoneIndex.AnswersWhen | examples/dns/server.c:107-126 | the tests of the code select exactly these definitions |
| ZoneIndex.FirstSuits | examples/dns/server.c:103-143 | and the linear scan gives the first of them |
| ZoneIndex.OneMoreMissed | examples/dns/server.c:103-118 | a full slot that does not answer is not the last one of the path |
| DnsServer.Serve | examples/dns/server.c:187-211 | One round of the server, from bytes to bytes: a packet is answered exactly when it parses as a message; what is sent are the bytes on the wire of a reply, with the identifier of the query, 132 plus its recursion bit, response code 0 or 3, and its question count; every question is answered, in order, from the first definition that suits it, with type 1, 2, 5 or 15 as the definition has it, class 1, sixty seconds and the data of the definition, or, when nothing suits some question, nothing is and the code is 3 |
| DnsServer.DnsRespond | examples/dns/server.c:82-150 | the reply to a parsed query, and its bytes on the wire when the names in the zone are shorter than 65536 bytes |
| DnsServer.ReplyInRange | examples/dns/server.c:86-97 | every reply is a message that can be sent |
| DnsServer.AnsweredWhen | examples/dns/server.c:103-143 | the code has an answer exactly when some definition suits, and then it carries the first that does |
| DnsServer.TypeOfAnswer | examples/dns/server.c:109-142 | the type of an answer is the one asked for, or 5, or 255 was asked for |
| DnsServer.NothingToAnswer | examples/dns/server.c:107-126 | without an answer, no definition of the name is an alias, none has the type asked for (for an address, with four parts), and for 255 there are only addresses of fewer parts |
| DnsServer.NameSeen | examples/dns/server.c:101-108 | the name the search sees has the labels of the question, and their bytes are those on the wire |
| DnsServer.AcceptedWhen | examples/dns_cpp/dns/dns.nail.c:751-767 | the entry point accepts a message on the wire and refuses it with anything behind it |
| DnsServer.AnswerAll | examples/dns/server.c:98-148 | the questions are answered in order up to the first that has no answer |
| DnsServer.FillAnswer | examples/dns/server.c:115-142 | four bytes for an address, the name for the other kinds |
| DnsServer.AddressAnswered | examples/dns/server.c:119-129 | an address written in decimal is answered with its four bytes |
| DnsServer.AddressInAscii | examples/dns/server.c:119-129 | the characters 192.0.2.1 are answered with those four bytes |
| DnsServer.NatoiOfDecimal | examples/dns/server.c:72-81 | reading the decimal digits of a number gives the number |
| DnsServer.NatoiLoop | examples/dns/server.c:72-81 | the loop reads the digits as one number |
| DnsServer.DomainResponse | examples/dns/server.c:62-71 | the printer of the grammar, run on a stream of its own, writes a name of any labels as the labels behind the low bytes of their lengths, then a zero |
| DnsServer.NamePrinted | examples/dns_cpp/dns/dns.nail.c:1334-1352 | those bytes are the text of the name in the grammar |
| DnsServer.NameReadsBackWhen | examples/dns/dns.nail:1-3 | they read back as the labels if and only if every label has 1 to 64 bytes |
| ZoneIndex.ZoneHashtable | examples/dns/server.c:50-60 | for every zone, every insertion ends; each definition is stored exactly once, the probe path to it is full, and definitions of equal hash lie along it in zone order |
| ZoneIndex.InsertKeeps | examples/dns/server.c:53-57 | storing the next definition in the first free slot of its path keeps all of this |
| ZoneIndex.Probe | examples/dns/server.c:54-55 | probing ends at an empty slot with every slot before it full |
| ZoneIndex.SomeSlotEmpty | examples/dns/server.c:34-60 | a table larger than the number of stored definitions has an empty slot |
| ZoneIndex.EarlierVisited | examples/dns/server.c:103-118 | an earlier definition that would answer would have been met earlier on the path |
| ZoneIndex.NoneVisited | examples/dns/server.c:103-118 | an empty slot on the path means no definition of the zone answers |
| ZoneIndex.DomainHash | examples/dns/server.c:37-45 | the nested loops compute djb2 in 64-bit arithmetic over the characters of all labels |
| ZoneIndex.HashInBase33 | examples/dns/server.c:37-45 | the hash is the number whose digits in base 33 are 5381 and the characters of all labels, taken modulo 2^64 once |
| ZoneIndex.DomainCmp | examples/dns/server.c:22-33 | zero exactly for equal names |
| Checksum.ChecksumCloses | network/parse.cc:16-43 | the checksum closes (section 1 of RFC 1071): with at most 65537 words, storing the generated field in the zeroed word, wherever it is, makes the buffer verify |
| Checksum.VerifiesWhen | network/parse.cc:16-30 | with at most 65537 words, a buffer verifies exactly when the sum of its words, in network order, is a positive multiple of 65535 |
| Checksum.FieldVerifiesWhen | network/parse.cc:16-30 | which fields close it: exactly those that complete the sum of the other words, in network order, to a positive multiple of 65535 |
| Checksum.ChangeUnnoticedWhen | network/parse.cc:16-30 | changing one word of a buffer that verifies goes unnoticed exactly when the new word is congruent to the old one modulo 65535 and the sum stays positive |
| Checksum.GeneratedIs | network/parse.cc:32-44 | the generated field is the complement of the folded sum of the words in network order, whatever the order of the host (section 2 of RFC 1071) |
| Checksum.FoldKeepsSum | network/parse.cc:24-26 | folding ends below 2^16, keeps the sum modulo 65535 and is zero only for zero |
| Checksum.FoldsToOnes | network/parse.cc:27 | the folded sum is 0xFFFF if and only if the sum is a positive multiple of 65535 |
| Checksum.SumAfterStore | network/parse.cc:42 | storing a word exchanges it for the old one in the sum |
| Checksum.FoldedSum | network/parse.cc:18-26 | the two loops compute the folded sum of the words, in 32-bit arithmetic |
| Checksum.ChecksumParse | network/parse.cc:16-30 | accepts, of buffers of at most 65537 words, exactly those whose words sum up, in network order, to a positive multiple of 65535 |
| Checksum.ChecksumGenerate | network/parse.cc:32-44 | the field is the complement of the folded sum of the words written so far, in network order |
| ZipEnd.EndOfDirectoryParse | examples/zip/zip.c:103-125 | the end-of-directory scan (section 4.3.16 of PKWARE APPNOTE) succeeds exactly when some offset in the last 65536 bytes is valid, and then splits the file at the greatest one into two parts whose concatenation is the file, leaving the stream at its end |
| ZipEnd.SplitRecovered | examples/zip/zip.c:103-134 | the scan recovers the split the generator made if and only if the directory is a record, at most 65536 bytes long, and no proper suffix of it is one |
| ZipEnd.ValidWhen | examples/zip/zip.c:97-102 | a directory is accepted exactly when it is the bytes P K 5 6, sixteen more, two bytes of length, low byte first, and a comment of that length |
| ZipEnd.SplitIsUnique | examples/zip/zip.c:108-121 | there is one such split at most |
| ZipEnd.EndOfDirectoryGenerate | examples/zip/zip.c:127-134 | the directory is appended to the file data |

## Left out

- Grammar constructs: NUNION (it falls through into ARRAY in the two-pass parser and is missing from
  the direct one), TRANSFORM and APPLY in the generic grammar (the DNS name transform is modelled in
  `DnsMessage`), recursive grammars and parser parameters (a reference stands for its definition),
  dependencies that are not integers, signed integers, little-endian printing.
- Repetitions whose body does not advance are excluded by `Grammar.WellFormed`: the emitted loop may
  never end on them.
- DirectSpec.Parse: gives an optional part its own storage. The emitted one-pass code
  (generator/mk_directparser.cc:449-470) parses it through a pointer it never allocates, which the
  two-pass code does allocate (generator/mk_parser.cc:206-214); the same holds for DirectParser.Run.
- DirectParser.Run: the arena half of the emitted parser is the function `ArenaUse.Use` on the same
  attempts; the temporary arena of the element lists, which is never restored, is left out.
- PrintExactly.PrintAfterParseExactly: grammars with repeated constants are not covered. For them one
  half holds (`PrintParsed.SpelledPrints`), the other is false (`PrintExactly.RepeatsCompensate`), also
  where every repetition takes at least what it prints (`PrintExactly.LongRepeatCompensated`), and the
  exact condition is given for one repeated constant at a time (`PrintExactly.RepeatPrintedWhen`).
- ParsePrinted.ParseAfterPrintExactly: grammars with repeated constants are not covered. For them one
  half holds (`ParsePrinted.ReadsBack`), the other is false (`ParsePrinted.RepeatsNotClear`). Constants
  wider than their fields and empty alternatives are not covered by either half.
- TwoPass.TwoPassEqualsOnePassOn: select is not covered, the two-pass generator emits nothing for it.
  The condition is not necessary for a whole grammar (`TwoPassWhen.FailureHidden`); it is exact for one
  array or optional part whose own parts give back.
- TwoPassParser.PegInto: uses the exact bounds check and reader of include/nail/memstream.hh, like the
  members it calls; the looser check of the C template is compared with it in `StreamCheck`. Trace slots
  are not wrapped to 32 bits.
- TwoPassParser.PegDependency: goes on where the assertion of `Trace.NailTrace.SetPos` fails, which it
  does when the trace is exactly full.
- PrintSpec.Print: no text also stands for a value that does not have the shape of its C type. A
  dependency variable that no field assigned holds an arbitrary value, `junk`.
- Grammar.Dep: a dependency that is not declared does not compile; the model reads 0.
- DnsMessage.MessageRoundTrip: the parsing side of the codec is modelled on values; the printing side
  as it runs is `DnsGenerate`. A name that never ends counts as not parsed there.
- DnsName.SizingPass: (and DnsName.CopyingPass) stated for names that end; the C loops do not return
  on others. The C++ version of the name decompression is left out: a pointer it follows is then
  rejected as a label length.
- Arena.NailArena.NMalloc: what happens after a block has left its pool is not followed; malloc never
  fails; the error jump, releasing the arena and clearing the block are left out.
- ZoneIndex.Lookup: stated for searches that end (`ZoneIndex.LookupEndsWhen`); an empty zone, on which
  the modulus is zero, is left out.
- DnsServer.Serve: (and DnsServer.DnsRespond) for searches that end, in a zone whose names are shorter
  than 65536 bytes; sockets, memory errors and the zone file parser are left out. Digits are added up
  without the wrap-around of a C int.
- Checksum.ChecksumParse: a little-endian host; the last byte of a buffer of odd length is ignored, as
  in the code.
- ZIP compression and CRC, the size and offset transforms, the IP header functions of
  network/parse.cc, wrap-around of sizes at the scale of the address space.
- The C text the generators print (labels, types, templates), generator/datatype.cc, the generated
  generator/new_grammar.nail.c, generator/tools, main programs, benchmarks and papers.
