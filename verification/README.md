# Scope trace capture and reconstruction

A model of the signal-tap scope of the Vortex runtime (`runtime/common/scope.cpp`).
The hardware holds a number of taps, each sampling a group of signals. Starting a capture
checks each tap's width against a JSON manifest and configures the capture depth and the
start and stop times. Stopping it does four things:

- reads every tap's sample count, start cycle and first delta;
- writes the header of a value change dump (the VCD format of IEEE Std 1364-2005, clause 18),
  with one nested scope per module of the taps' dotted paths;
- drains the taps' samples in order of capture cycle, interleaved with a clock signal;
- deals each sample's bits out to the tap's signals.

Modules, one per file:

- `Protocol` (`protocol.dfy`): the 64-bit command words (opcode, tap id and payload fields)
  and a `Device` class. It stands in for the injected register write and read callbacks:
  writes are logged, reads answer from a queue, and a failing transport fails every access.
- `Vcd` (`vcd.dfy`): the dump's lines and their exact text. It defines two properties of a
  line sequence: scopes are properly nested, and timestamps strictly increase.
- `Trace` (`trace.dfy`): tap and signal records and `dump_tap`. The tap's sample buffer is
  a sequence of characters, and its loops are methods proved against the specification
  function `SampleChanges`.
- `Timeline` (`timeline.dfy`): `find_earliest_tap`, `advance_clock` and the merge loop of
  `vx_scope_stop`. The loop runs over an `array<Tap>` updated in place.
- `Header` (`header.dfy`): `split`, the hierarchy-building loop, `dump_module` and
  `dump_header`.
- `Session` (`session.dfy`): the manifest, width validation, configuration writes and the
  trace-info pass. A `Session` class holds the running flag and has `Start` and `Stop`.
- `Seqs` and `Wrappers`: generic sequence lemmas and an `Option` type.

Output is returned as sequences of `Vcd.Line` rather than written to a file; `Vcd.Render`
gives each line's exact text. Environment variables and the manifest file are parameters:
the manifest is an `Option<seq<TapSpec>>` (`None` for a missing or null manifest) and the
capture depth an `Option<bv32>` (`None` when unset or unparsable).

## Model

| member | source | states |
|---|---|---|
| Protocol.ConfigCommand | runtime/common/scope.cpp:272-293 | The opcode and tap id can always be read back from a packed command word; a payload below 2^53 can be read back too. |
| Protocol.PayloadTruncated | runtime/common/scope.cpp:283-284 | A larger payload, such as a stop or start time of 2^53 or more, keeps only its low 53 bits. |
| Protocol.Command | runtime/common/scope.cpp:195 | A query command is the configuration command with a zero payload. |
| Protocol.DepthCommand | runtime/common/scope.cpp:268-274 | The depth word is computed in 32 bits and then widened: it carries the depth modulo 2^21, and exactly the depth when it is below 2^21. |
| Protocol.Decode | runtime/common/scope.cpp:195 | Splitting a word into opcode, id and payload fields and packing them again gives back the word. |
| Protocol.DecodeConfigCommand | runtime/common/scope.cpp:272 | Decoding a packed command gives back the fields it was packed from. |
| Protocol.Repeat | runtime/common/scope.cpp:195-197 | The log of k identical commands has length k and holds only that command. |
| Protocol.Device.constructor | runtime/common/scope.cpp:73 | A fresh device has an empty write log and the given responses. |
| Protocol.Device.Write | runtime/common/scope.cpp:48-55 | A write is logged and succeeds unless the transport fails, which returns its nonzero code. |
| Protocol.Device.Read | runtime/common/scope.cpp:48-55 | A read takes the next response, and fails when the transport fails or no response is left. |
| Protocol.Device.Query | runtime/common/scope.cpp:196-197 | One exchange writes the command and reads one response; the first failure is returned. |
| Vcd.DepthAppend | runtime/common/scope.cpp:97-113 | Scope depth adds up over concatenated output. |
| Vcd.DepthCounts | runtime/common/scope.cpp:97-113 | The depth is the number of scopes opened minus the number closed. |
| Vcd.NestedBalanced | runtime/common/scope.cpp:97-113 | In properly nested output every `$scope` has exactly one `$upscope`. |
| Vcd.FlatDepth | runtime/common/scope.cpp:205 | Lines that open and close no scope leave the depth unchanged. |
| Vcd.FlatAppend | runtime/common/scope.cpp:409-421 | A concatenation opens and closes no scope exactly when both parts do not. |
| Vcd.FlatNested | runtime/common/scope.cpp:205 | Flat lines are trivially nested. |
| Vcd.NestedAppend | runtime/common/scope.cpp:139-141 | Nested blocks written one after the other stay nested. |
| Vcd.NestedWrap | runtime/common/scope.cpp:97-113 | One `$scope`/`$upscope` pair around nested lines keeps them nested. |
| Vcd.StampsAppend | runtime/common/scope.cpp:168-178 | The timestamps of concatenated output are those of the parts, in order. |
| Vcd.ChangesOnly | runtime/common/scope.cpp:205 | Value-change lines carry no timestamp and no scope marker. |
| Vcd.IncreasingConcat | runtime/common/scope.cpp:174-180 | Increasing times in [base, lo) followed by increasing times in [lo, hi) are increasing in [base, hi). |
| Vcd.OrderlyWiden | runtime/common/scope.cpp:168-178 | Flat lines with increasing times in a range stay so in any wider range. |
| Vcd.OrderlyAppend | runtime/common/scope.cpp:412-421 | Flat, increasing output in two adjacent time ranges concatenates to flat, increasing output over both. |
| Vcd.NatToString | runtime/common/scope.cpp:168 | Numbers are printed in decimal: a nonempty run of digits that starts with 0 only for 0. |
| Vcd.ParseNatToString | runtime/common/scope.cpp:168 | Round trip: reading a printed number back as decimal digits gives the number. |
| Vcd.NatToStringInjective | runtime/common/scope.cpp:102 | Two numbers print alike exactly when they are equal. |
| Vcd.Spaces | runtime/common/scope.cpp:96 | The indentation string for n is n spaces. |
| Vcd.RenderTimestamp | runtime/common/scope.cpp:168-177 | A timestamp line is `#` followed by digits that read back as its time. |
| Vcd.RenderChange | runtime/common/scope.cpp:205 | A value-change line is `b`, the value's characters, a space, and digits that read back as the signal id. |
| Vcd.RenderDistinguishes | runtime/common/scope.cpp:205 | Two timestamp lines, or two changes of one value, render alike exactly when their times, or ids, are equal. |
| Vcd.RenderIndent | runtime/common/scope.cpp:96-113 | Scope, declaration and upscope lines start with exactly their indentation in spaces, then their `$` keyword. |
| Vcd.ChangeCountAppend | runtime/common/scope.cpp:205 | The number of value changes adds up over concatenated output. |
| Vcd.ChangeCountUniform | runtime/common/scope.cpp:205 | Output made only of value changes has one per line, and output with none has zero. |
| Trace.Changes | runtime/common/scope.cpp:198-225 | A sample gives one value-change line per signal, last-declared signal first. |
| Trace.WidthFromShrinks | runtime/common/scope.cpp:190-223 | Dropping leading signals never adds width, and with nonempty signals it removes some. |
| Trace.SampleChangesAt | runtime/common/scope.cpp:199-205 | Line n of a sample is signal \|sigs\|-1-n, with the signal's width in bits taken from its offset up, most significant first, and with its id. |
| Trace.ChangesAt | runtime/common/scope.cpp:199-205 | Line n of the output for the signals from i on is signal \|sigs\|-1-n. |
| Trace.ChangesPrefix | runtime/common/scope.cpp:203-205 | A sample's output is produced front to back: the lines of later signals are a prefix of the lines of earlier ones. |
| Trace.SampleSplitsBits | runtime/common/scope.cpp:189-205 | The signal values read in declaration order spell the sample's bits most significant first, with no bit skipped or used twice. |
| Trace.ChangesSplitBits | runtime/common/scope.cpp:189-205 | The same for the signals from index i on, over their summed width. |
| Trace.FieldOf | runtime/common/scope.cpp:199-203 | Names the signal holding sample bit p. |
| Trace.OffsetsDecrease | runtime/common/scope.cpp:190-223 | A later-declared signal lies entirely below an earlier-declared one. |
| Trace.FieldsTile | runtime/common/scope.cpp:199-223 | Every bit position of a sample belongs to exactly one signal. |
| Trace.WordPosition | runtime/common/scope.cpp:199 | Sample bit x is bit x-64n of data word n when 64n <= x < 64(n+1). |
| Trace.WordBoundary | runtime/common/scope.cpp:225-226 | After x bits, the last in word n, the word is used up exactly when x is a multiple of 64, and x bits take n+1 words. |
| Trace.BufStep | runtime/common/scope.cpp:200 | Storing bit so at buffer position w-so-1 extends the most-significant-first tail of the signal's value by one bit. |
| Trace.BitStep | runtime/common/scope.cpp:200-202 | Storing a bit of a signal that is not yet full keeps the loop state consistent. |
| Trace.SignalComplete | runtime/common/scope.cpp:203-205 | Storing a signal's last bit completes its value, which is the next line of the sample. |
| Trace.TerminatorOverflows | runtime/common/scope.cpp:189-204 | The terminator write after a full signal lands past the end of the width-sized buffer exactly when the tap has a single signal. |
| Trace.SampleComplete | runtime/common/scope.cpp:206 | Once a signal is out, the sample is complete exactly when it was the first-declared signal. |
| Trace.NextSignal | runtime/common/scope.cpp:221-223 | After signal m > 0, signal m-1 starts right above it. |
| Trace.DealBit | runtime/common/scope.cpp:199-224 | One bit is dealt to its signal; at the end of a sample the lines are exactly the sample's value changes and all of its words were used. |
| Trace.DealWord | runtime/common/scope.cpp:198-225 | One data word is dealt out until it is used up or the sample completes. |
| Trace.NextSample | runtime/common/scope.cpp:206-213 | After a sample one more sample is done, and the clock moves on exactly when another sample follows. |
| Trace.DumpTap | runtime/common/scope.cpp:184-229 | Succeeds exactly when the device answers every data word and the delta. It then emits exactly the sample's value changes, consumes exactly those words with the tap's GET_DATA command, and updates only that tap. On failure it returns the device's code, a prefix of the lines, and the tap with at most one more sample counted. |
| Trace.ReadSample | runtime/common/scope.cpp:193-226 | Reads the sample's data words one per GET_DATA exchange and emits exactly the sample's value changes, or a prefix of them on failure. |
| Trace.EndSample | runtime/common/scope.cpp:206-219 | Counts the sample and, unless it was the last, reads the delta and moves the clock by one plus the delta. |
| Timeline.EarliestUnique | runtime/common/scope.cpp:148-163 | The tap find_earliest_tap answers is fully determined: among taps at the same earliest cycle the first wins. |
| Timeline.Earliest | runtime/common/scope.cpp:148-163 | A reference definition of find_earliest_tap as a function: no tap exactly when none has samples left, otherwise the first live tap at the earliest cycle. |
| Timeline.StepKeeps | runtime/common/scope.cpp:208-213 | Taking one sample from the earliest tap keeps the taps decodable, leaves no live tap before its cycle, and lowers the samples left. |
| Timeline.FindEarliest | runtime/common/scope.cpp:148-163 | Returns no tap when none has samples left. Otherwise it returns a live tap whose cycle is no later than any live tap's and strictly earlier than those of all live taps before it. |
| Timeline.AdvanceClock | runtime/common/scope.cpp:165-182 | Returns the target cycle and writes the clock lines up to it. |
| Timeline.TicksAt | runtime/common/scope.cpp:174-180 | Cycle lo+k of the clock is lines 4k to 4k+3. |
| Timeline.TicksLength | runtime/common/scope.cpp:174-180 | The clock writes four lines per cycle. |
| Timeline.ClockLinesLength | runtime/common/scope.cpp:165-182 | One low/high pair per cycle, at most 10000 pairs, plus one `bx` pair exactly when the gap exceeds 10000 cycles. Nothing is written exactly when the clock does not move. |
| Timeline.EdgeStamps | runtime/common/scope.cpp:175-178 | The edges of cycle t are at times 2t and 2t+1. |
| Timeline.TicksIncreasing | runtime/common/scope.cpp:174-180 | Clock cycles lo to hi give flat lines with strictly increasing times in [2lo, 2hi). |
| Timeline.TickOrderly | runtime/common/scope.cpp:175-178 | One cycle's edges are flat lines with increasing times in [2t, 2t+2). |
| Timeline.ClockLinesIncreasing | runtime/common/scope.cpp:165-182 | Everything advance_clock writes is flat and carries strictly increasing times in [2cur, 2next). |
| Timeline.GapOrderly | runtime/common/scope.cpp:167-180 | The collapsed-gap marker followed by the last cycles is flat and increasing. |
| Timeline.RemainingStep | runtime/common/scope.cpp:208 | Dumping one sample lowers the samples left in total by one. |
| Timeline.CountAppend | runtime/common/scope.cpp:416 | Recording one more dumped tap counts it once more. |
| Timeline.SortedAppend | runtime/common/scope.cpp:414 | A cycle no earlier than the last keeps the dump cycles sorted. |
| Timeline.DumpStep | runtime/common/scope.cpp:412-418 | Dumping the earliest tap keeps the taps decodable, counts the dump, leaves no live tap before that cycle, and lowers the samples left. |
| Timeline.DecodableStep | runtime/common/scope.cpp:208-213 | A dumped tap stays decodable. |
| Timeline.DumpedStep | runtime/common/scope.cpp:416 | A dumped tap's progress equals its count of recorded dumps. |
| Timeline.NotBeforeStep | runtime/common/scope.cpp:410-418 | After the earliest tap moves on, no live tap lies before its old cycle. |
| Timeline.DumpedFully | runtime/common/scope.cpp:410-419 | Once no tap has samples left, each tap was dumped once per sample it had left. |
| Timeline.FailedStep | runtime/common/scope.cpp:416 | A failed dump changes only the tap's progress. |
| Timeline.MergeNone | runtime/common/scope.cpp:410-411 | With no live tap the reference merge completes with no rounds. |
| Timeline.MergeShort | runtime/common/scope.cpp:413-416 | When the responses cannot supply the earliest tap's sample, the reference merge does not complete. |
| Timeline.MergeAdvance | runtime/common/scope.cpp:412-418 | The reference merge is the earliest tap's round followed by the merge of the taps with that sample taken, from its cycle. |
| Timeline.MergeOpen | runtime/common/scope.cpp:412-418 | A completed merge of unfinished taps opens with the earliest tap's round, and the rest completes on fewer samples. |
| Timeline.RoundOrderly | runtime/common/scope.cpp:413-416 | One round's lines are flat with increasing times between the old and the new cycle, and hold one change per signal of the tap. |
| Timeline.InOrderStep | runtime/common/scope.cpp:412-418 | A round before a merge that is in order from the round's cycle keeps the whole in order. |
| Timeline.MergeOrderly | runtime/common/scope.cpp:410-419 | A merge's rounds are at sorted cycles no earlier than the start. Its lines are flat with strictly increasing times up to the last cycle. |
| Timeline.DumpsAllStep | runtime/common/scope.cpp:416 | Dumping tap e once, before rounds that finish the taps, counts e's sample. |
| Timeline.MergeCounts | runtime/common/scope.cpp:410-419 | A merge dumps each tap once per sample it had left, and names only existing taps. |
| Timeline.CountPrepend | runtime/common/scope.cpp:416 | A dump recorded first counts once more for its tap only. |
| Timeline.WorkloadStep | runtime/common/scope.cpp:413-416 | Taking one sample lowers the value changes left to write by the tap's signal count. |
| Timeline.ClockChanges | runtime/common/scope.cpp:165-182 | The clock lines hold no value change of a tap signal. |
| Timeline.TicksChanges | runtime/common/scope.cpp:174-180 | Whole clock cycles hold no value change of a tap signal. |
| Timeline.MergeChanges | runtime/common/scope.cpp:410-419 | A merge writes exactly one value change per signal per sample left. |
| Timeline.WorkloadFinished | runtime/common/scope.cpp:410-411 | When no tap has samples left, no value change is left to write. |
| Timeline.ClosedTrace | runtime/common/scope.cpp:421 | Closing a merge with one more cycle keeps it flat and increasing, and it is empty exactly when nothing was dumped. |
| Timeline.MergeTrace | runtime/common/scope.cpp:408-422 | The completed merge closed by the final cycle is flat with strictly increasing times. It is empty exactly when no tap had samples left, holds one change per signal per sample, and dumps each tap once per sample. |
| Timeline.MergingStarts | runtime/common/scope.cpp:408-411 | Before the first round nothing is merged, and the whole merge is still ahead. |
| Timeline.MergingStep | runtime/common/scope.cpp:412-418 | A completed round extends the rounds done by exactly the earliest tap's round. The device has answered and logged exactly those rounds. |
| Timeline.ServedStep | runtime/common/scope.cpp:195-197 | The log grows, and the responses shrink, by exactly one round's exchange. |
| Timeline.ChainedStep | runtime/common/scope.cpp:412-418 | The merge from the start is the rounds done, then the earliest tap's round, then the rest. |
| Timeline.MergingFails | runtime/common/scope.cpp:413-416 | A round that runs out of responses means the merge from the start cannot complete. |
| Timeline.MergingEnds | runtime/common/scope.cpp:419 | When no tap is left, the rounds done are the whole merge. |
| Timeline.SampleLinesFlat | runtime/common/scope.cpp:205 | A prefix of a sample's output adds no scope and no time. |
| Timeline.TimelineStep | runtime/common/scope.cpp:412-418 | The clock lines up to the next cycle, followed by a sample's lines, keep the output flat and strictly increasing. |
| Timeline.DumpEarliest | runtime/common/scope.cpp:413-416 | One round moves the clock to the earliest tap's cycle and dumps one of its samples. On success the lines, the commands written and the responses read are exactly those of the reference round (`Round`), and only that tap moves on. A failure comes from the device or from the responses running out. |
| Timeline.MergeRound | runtime/common/scope.cpp:412-418 | One pass of the do-while. On success the rounds done grow by exactly the earliest tap's round, the merge state holds again and fewer samples remain. A failure means the device failed or the merge cannot complete. |
| Timeline.Merge | runtime/common/scope.cpp:411-419 | The do-while ends with every tap finished. On success the rounds done are exactly the reference merge of the taps from cycle 0 (`MergeFrom`): its lines are the output, and the device logged and answered exactly its exchanges. A failure means the device failed or the merge cannot complete. |
| Timeline.FinalCycle | runtime/common/scope.cpp:421 | Appends exactly one more clock cycle after the last sample, keeping the output increasing. |
| Timeline.Drain | runtime/common/scope.cpp:408-422 | Succeeds exactly when the reference merge of the taps completes with the device's responses and the device does not fail, or there is nothing to dump. The output is then exactly that merge closed by one more cycle (`Closed`), and the commands written and responses read are exactly the merge's. Each tap is dumped once per sample it had left, in non-decreasing cycle order, and the output is flat with strictly increasing times. On failure it returns the device's code. |
| Header.Pieces | runtime/common/scope.cpp:81-89 | There is always at least one piece between delimiters. |
| Header.Split | runtime/common/scope.cpp:81-89 | Yields the getline tokens: the pieces between delimiters, without an empty last piece. |
| Header.PiecesPlainText | runtime/common/scope.cpp:85 | No piece contains the delimiter. |
| Header.PiecesJoin | runtime/common/scope.cpp:81-89 | Joining the pieces gives back the string. |
| Header.JoinPieces | runtime/common/scope.cpp:81-89 | Cutting joined delimiter-free tokens gives them back. |
| Header.PiecesSnoc | runtime/common/scope.cpp:85 | A delimiter opens a new piece; another character extends the last one. |
| Header.PiecesPlain | runtime/common/scope.cpp:85 | Delimiter-free text extends the last piece. |
| Header.SplitJoin | runtime/common/scope.cpp:81-89 | Round trip: delimiter-free tokens whose last one is nonempty are what splitting their join yields. |
| Header.JoinSplit | runtime/common/scope.cpp:81-89 | Round trip: joining split's tokens gives back the string, up to a dropped trailing delimiter, and no token holds the delimiter. |
| Header.SplitEmpty | runtime/common/scope.cpp:85-88 | Split yields no token exactly for the empty string. |
| Header.PairsInsert | runtime/common/scope.cpp:130 | Inserting a child records exactly that parent-child link. |
| Header.PathEdgesStep | runtime/common/scope.cpp:129-131 | One more segment adds exactly its link to its predecessor. |
| Header.AddPath | runtime/common/scope.cpp:129-131 | The links recorded grow by exactly the links along the path, and every parent has a child. |
| Header.AddTap | runtime/common/scope.cpp:127-136 | One pass records the tap's links, its head, and itself as the last tap ending in its leaf. |
| Header.BuildHierarchy | runtime/common/scope.cpp:126-136 | The links recorded are exactly those along the taps' paths. The heads are their first segments, and each leaf name maps to the last tap ending in it. |
| Header.PrefixStep | runtime/common/scope.cpp:127-135 | One more tap adds its path's links and its head. |
| Header.TailsStep | runtime/common/scope.cpp:133-135 | The tap just added becomes the last one ending in its leaf name. |
| Header.Decls | runtime/common/scope.cpp:99-104 | One flat `$var` line per signal of the tap, in declaration order, with its width, id and name. |
| Header.ScopeNested | runtime/common/scope.cpp:96-113 | A scope around the declarations and the children's scopes is nested, with the declarations right after its opening line. |
| Header.NamesHas | runtime/common/scope.cpp:106-111 | Each tree's module is among the names written. |
| Header.NamesIndex | runtime/common/scope.cpp:106-111 | Every name written is the module of one of the trees. |
| Header.NamesBound | runtime/common/scope.cpp:106-111 | There are no more names than trees. |
| Header.NamesOnce | runtime/common/scope.cpp:106-111 | When there are as many names as trees, no module is written twice. |
| Header.Snoc | runtime/common/scope.cpp:106-111 | One more tree adds its name and appends its block. |
| Header.FamilyStep | runtime/common/scope.cpp:106-111 | Adding a child not yet written keeps the trees a family of the children written. |
| Header.WrittenStep | runtime/common/scope.cpp:106-111 | Writing one more unwritten child extends the written blocks by exactly its block. |
| Header.BlockNested | runtime/common/scope.cpp:96-113 | Every block is properly nested. |
| Header.BlocksNested | runtime/common/scope.cpp:106-111 | Blocks written one after the other are properly nested. |
| Header.BlockParts | runtime/common/scope.cpp:96-111 | A block contains its module's opening with the declarations, and its children's blocks. |
| Header.BlockInBlocks | runtime/common/scope.cpp:106-111 | Each tree's block appears within the blocks of its siblings. |
| Header.PairsHas | runtime/common/scope.cpp:130 | A recorded link is a child in its parent's set. |
| Header.ChainKeys | runtime/common/scope.cpp:129-131 | Along a chain of recorded links, every module but the last has children recorded. |
| Header.ChainSnoc | runtime/common/scope.cpp:129-131 | A chain followed by one more recorded link is a chain. |
| Header.ChainShort | runtime/common/scope.cpp:91-114 | Without a cycle, a chain of links holds at most one more module than the hierarchy has parents. |
| Header.PathLinks | runtime/common/scope.cpp:127-131 | Every tap's path is a chain of recorded links. |
| Header.HeadsHas | runtime/common/scope.cpp:132-134 | Every tap's first segment is a head. |
| Header.ChildBlock | runtime/common/scope.cpp:106-111 | A recorded child of a module has its block inside the module's block, one level deeper. |
| Header.PathReached | runtime/common/scope.cpp:91-114 | Following a path of links down from a module reaches the opening of its last segment, at the depth of the path. |
| Header.HeadReached | runtime/common/scope.cpp:139-141 | A path from a head has its last segment's opening among the heads' blocks. |
| Header.LeafOpening | runtime/common/scope.cpp:133-135 | The last tap ending in a leaf module supplies that module's declarations. |
| Header.LeafDeclared | runtime/common/scope.cpp:99-104 | The last tap ending in a leaf has its scope and declarations among the heads' blocks. |
| Header.HeaderDeclares | runtime/common/scope.cpp:116-145 | Without a cycle, every such tap's leaf scope and declarations are in the header. |
| Header.HeadsOpened | runtime/common/scope.cpp:139-141 | Every head's scope is opened at the first level of the header. |
| Header.FuelSuffices | runtime/common/scope.cpp:91-114 | Without a cycle, recursing more levels than the hierarchy has parents changes no tree, so the unbounded recursion writes the same header. |
| Header.Saturated | runtime/common/scope.cpp:106-111 | A subtree at the end of a chain of links is already complete. |
| Header.DumpModule | runtime/common/scope.cpp:91-114 | Writes exactly the block of a tree rooted at the module (`Block`): its scope and the declarations of the last tap ending in that name. Inside come the blocks of its children, one level deeper, each child exactly once (`Fits`). |
| Header.DumpChildren | runtime/common/scope.cpp:106-111 | Writes one block per child, each child exactly once (`Family`), in the order the set is walked. |
| Header.EncloseNested | runtime/common/scope.cpp:117-144 | Wrapping nested module scopes in the top scope keeps the header nested. |
| Header.DumpHeader | runtime/common/scope.cpp:116-145 | The header is exactly the preamble, one block per head with its subtree, then the closing of the top scope and of the definitions. It is properly nested and opens a first-level scope for each head. When the paths form no cycle, every leaf module's declarations follow its opening at the depth of its path. |
| Header.DumpHeads | runtime/common/scope.cpp:139-141 | Writes one first-level block per head, each head exactly once. |
| Session.Numbered | runtime/common/scope.cpp:349-356 | The signals are numbered consecutively from the running id. |
| Session.TapsUpTo | runtime/common/scope.cpp:340-359 | Each manifest entry gives a tap record with nothing captured, its signals numbered on from the signals before it, starting at 1. |
| Session.NumberSignals | runtime/common/scope.cpp:349-356 | The signal loop hands out ids from the running counter, in order. |
| Session.LoadManifest | runtime/common/scope.cpp:340-359 | The pass over the manifest builds exactly the specified tap records. |
| Session.SignalsBeforeGrows | runtime/common/scope.cpp:355 | The running signal id never decreases over the manifest. |
| Session.SignalIdsDistinct | runtime/common/scope.cpp:340-356 | Every signal of the manifest gets its own id, and none gets the clock's id 0. |
| Session.WidthsAgree | runtime/common/scope.cpp:343-352 | A tap record's signal widths sum as the manifest's do. |
| Session.ManifestDecodable | runtime/common/scope.cpp:340-359 | A consistent manifest gives tap records that can be decoded and whose paths are named. |
| Session.PerTap | runtime/common/scope.cpp:279-295 | One configuration command per tap, in manifest order, with its id. |
| Session.DepthWrites | runtime/common/scope.cpp:268-274 | One depth command per tap, in manifest order. |
| Session.WriteAll | runtime/common/scope.cpp:364-367 | Writes the commands in order, each checked. It succeeds exactly when the transport works or there is nothing to write; a failure logs nothing and returns the device's code. |
| Session.MismatchFrom | runtime/common/scope.cpp:250-262 | Finds the first tap whose width query finds no answer or a wrong one; every tap before it matches. |
| Session.MismatchStops | runtime/common/scope.cpp:258-261 | The scan stops at tap i exactly when tap i finds no answer or a wrong one. |
| Session.Asked | runtime/common/scope.cpp:250-262 | The width check writes queries up to and including the first mismatch. |
| Session.ValidateWidths | runtime/common/scope.cpp:250-262 | Succeeds exactly when every tap's reported width equals its manifest width. A mismatch answers 1 after querying up to it, and a failed exchange answers the device's code. |
| Session.Info | runtime/common/scope.cpp:373-392 | Reads one count word, and for a nonzero count two more. It fails exactly when the responses run out, and otherwise sets the count and the first cycle 1+start+delta. |
| Session.Low32 | runtime/common/scope.cpp:391 | The 64-bit count is stored in a 32-bit field: the result is below 2^32 and equals the count when the count fits. |
| Session.InfoQueries | runtime/common/scope.cpp:375-389 | The queries are GET_COUNT, then GET_START and GET_DATA. |
| Session.LoadAll | runtime/common/scope.cpp:371-399 | Loading every tap in order reads no more words than there are responses. |
| Session.LoadAllShort | runtime/common/scope.cpp:371-399 | Once the responses run out for some taps they run out for all. |
| Session.LoadedShape | runtime/common/scope.cpp:391-392 | Loading trace info changes only the taps' sample counts and first cycles. |
| Session.LoadedDecodable | runtime/common/scope.cpp:340-399 | Taps from a consistent manifest stay decodable and named once loaded, with no sample dumped. |
| Session.LoadStep | runtime/common/scope.cpp:371-399 | Loading one more tap extends the loaded prefix by its update and its queries. |
| Session.LoadTap | runtime/common/scope.cpp:373-392 | The exchange for one tap succeeds exactly when the device answers every query. It writes exactly those queries and reads exactly those words. |
| Session.LoadedAdvance | runtime/common/scope.cpp:371-399 | Loading tap i advances the loaded prefix by one tap. |
| Session.LoadNext | runtime/common/scope.cpp:373-392 | One round of the trace-info pass. |
| Session.LoadTraceInfo | runtime/common/scope.cpp:371-399 | Loads the taps in order and succeeds exactly when the responses suffice. Only sample counts and cycles change, and exactly the queries are written. |
| Session.StartLog | runtime/common/scope.cpp:264-296 | One depth, stop and start command per tap, each only when its value is given. |
| Session.LoadTaps | runtime/common/scope.cpp:371-399 | A fresh array of the taps with their trace info loaded; on success exactly the trace-info queries were written and answered. |
| Session.LoadSession | runtime/common/scope.cpp:333-399 | Builds the tap records, writes one stop command per tap, then loads the trace info. On success the log grows by exactly the stop writes and the queries, the queries' responses are consumed, and the taps are decodable and named. The manifest must be `Consistent` (admitted under Left out). |
| Session.DumpSession | runtime/common/scope.cpp:403-422 | Succeeds exactly when the merge completes and the device does not fail, or there is nothing to dump. The header is then the taps' header (`HeaderFor`), nested, and declaring every leaf when acyclic. The trace is exactly the completed merge closed by one cycle: flat, strictly increasing, one change per signal per sample, each tap dumped once per sample. The device logged and answered exactly the merge's reads. |
| Session.WriteHeader | runtime/common/scope.cpp:403-405 | The header written for the taps is theirs, properly nested, and declares every leaf when the paths form no cycle. |
| Session.HeaderReconstructed | runtime/common/scope.cpp:116-145 | What dump_header returns is the taps' header in the sense of `HeaderFor`. |
| Session.TraceReconstructed | runtime/common/scope.cpp:408-422 | For freshly loaded taps, the completed merge closed by the final cycle is their trace: increasing, one change per signal per sample, and each tap dumped once per sample it holds. |
| Session.Reconstruct | runtime/common/scope.cpp:333-422 | Stop's work once a manifest is at hand. On success the taps are those loaded from the manifest, and the header and trace are their reconstruction from the responses left after the trace-info queries. The log is exactly the stop writes, the queries and the merge's reads, in order. On failure it returns the device's code. The manifest must be `Consistent` (admitted under Left out). |
| Session.Session.constructor | runtime/common/scope.cpp:75 | No capture is running at first. |
| Session.Session.Start | runtime/common/scope.cpp:231-298 | A missing device or manifest answers -1. The width check decides success, a mismatch answers 1 and a failed exchange the device's code. On success it writes every width query and then the depth, stop and start commands, and the session runs. |
| Session.Session.Stop | runtime/common/scope.cpp:320-427 | A missing device answers -1. Without a running capture it answers 0 and touches nothing. Otherwise the session stops, and with a manifest the trace is reconstructed and the log written as for Reconstruct. The manifest must be `Consistent` (admitted under Left out). |

## Findings

| source | as written | input that shows it | evidently intended | confidence | as-written member | corrected member |
|---|---|---|---|---|---|---|
| runtime/common/scope.cpp:189-205 | The signal buffer holds `tap->width` characters, and a full signal of width `w` gets a terminating NUL at index `w`. | A tap with a single signal, whose width is the tap's width: the NUL goes one past the end of the buffer, and the string printed has no terminator inside it. | Print exactly the signal's `w` bits, for instance from a buffer of `width + 1` characters. | high, not executed | Trace.TerminatorOverflows | Trace.SignalComplete |

The rest of the model follows the intended behaviour. Each signal's line is the first `w`
characters of the buffer (`Trace.DealBit`), and `Trace.SignalComplete` proves that these are
exactly the signal's bits.

## Left out

- The stop mutex and the auto-stop thread with its `SCOPE_TIMEOUT` (lines 300-315 and 321): concurrency is not modelled.
- Reading and parsing the JSON manifest and the environment variables: the manifest, the depth and the times are parameters.
- Stop with an unreadable manifest file, where parsing throws, is not modelled; a null manifest is `None` and returns 0 (lines 336-338).
- Console logging and the periodic flush of the output file (lines 214-217): they change no state that is modelled.
- Header and trace are returned as separate line sequences rather than written to `scope.vcd`.
- Trace.DumpTap: the 64-bit wrap-around of `cycle_time` and `cur_time` is not modelled (cycles are unbounded), because a 64-bit cycle count does not wrap in practice.
- Session.Info: the 64-bit wrap of `1 + start + delta` is not modelled for the same reason; the 32-bit truncation of the count is (`Session.Low32`).
- Session.NumberSignals: the running signal id is unbounded and does not wrap at 2^32.
- Header.DumpModule: the source recurses without bound, so a path that repeats a module name (`a.b.a`) never terminates. The model recurses at most as many levels as the hierarchy has parents. `Header.FuelSuffices` proves that for a hierarchy without a cycle more levels change nothing.
- The iteration order of the unordered hierarchy, head and child sets is left open: the model picks an arbitrary element each time.
- Tap ids are taken to fit the command word's 8-bit id field (`Protocol.TapId`); a wider id would overlap the payload bits.
- Session.Consistent: a tap's path must name at least one module, because `tokens[0]` on an empty path is undefined.
- Session.Consistent: the signal widths must sum to the tap's width. The source never checks this, although the manifest format implies it.
- Session.Consistent: every tap must list at least one signal, and every signal must have a positive width. The source accepts a manifest that breaks this, and a tap with no samples is skipped harmlessly. `dump_tap` is undefined on such a tap once it holds samples: `rbegin()` of an empty list at lines 190-191, and the index `signal_width - signal_offset - 1` wraps for width 0 at line 200. The condition is therefore required of every tap up front, and `Session.LoadSession`, `Session.Reconstruct` and `Session.Session.Stop` exclude these manifests even when the offending tap holds no samples.
- The check for a missing callback is folded into the absent device.
- Session.LoadTraceInfo: after a failed exchange nothing is stated about the taps already loaded.
- Protocol.Device: whether the transport fails is fixed for the whole session, so a write that fails after earlier writes succeeded (lines 273, 284, 294 and 366) is not modelled. `Session.WriteAll` and `Session.Session.Start` therefore write either every command of a batch or none. Reads still fail part-way, when the responses run out.
