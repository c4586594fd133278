# Small C programs, modelled and proved

A Dafny model of the hard cores of a set of independent C programs: a calculator that compiles
infix to postfix, a line diff, a CRC-protected append-only log with a chained hash table, a clone
of a key-value server, a health-aware load balancer, a shell and `uniq`. Each program's code is a
class or method with the source's own loops and state; each is proved against a function or a
state machine, and the theorems are about those.

| module | source | main results |
|---|---|---|
| `Infix`, `Calculator`, `CalculatorValues` | `7. calculator/calculator.c` | compiler correctness for every text whose tokens pass a simple test, over runs of calls on one shared stack |
| `Lcs` | `13. diff tool/diff_tool.c` | optimality of the traceback, whose tie-break differs from the fill's |
| `Words`, `Crc32` | `96. bitcask/helper.c` | polynomial division, 32-bit burst detection with a tight bound, the residue |
| `Framing`, `BitcaskLog` | `96. bitcask/db.c` | records parse back; exactly which runs of failing appends still do |
| `Chains`, `HashTable`, `BitcaskStore` | `96. bitcask/db.c` and the server's `db.c` | heap chains refine a map; exactly which tables survive save and load |
| `Decimal`, `Resp`, `RedisStore`, `RedisCommands`, `RedisRuns`, `RedisReplies` | `8. redis server/redis_clone/src` | over any run of request texts lazy expiry is invisible if and only if no DEL lists and no INCR counts on an expired key; when a key set with an expiry is gone |
| `RoundRobin` | `5. load balancer/theories/lessons` | bounded bypass and balance under every schedule |
| `Pipeline`, `LineEditor` | `14. shell/ccsh.c` | pipe ends of all processes after any interleaving of system calls; the draft survives history |
| `Uniq` | `10. uniq/uniq.c` | the unique canonical run-length encoding |

`dafny verify dfyconfig.toml` checks the whole project.

## Reading the model

- A machine word is the list of its bits, least significant first; `Words.OfBv` takes a 32-bit
  C literal to it and `Crc32.StepOfBv` shows that the C step on words is the step on lists.
- A C string is a `string` without NUL, except the postfix text of the calculator, in which a
  leftover byte of a double can be a NUL and then ends the text, and the lines of a loaded file.
- Arithmetic on doubles is a parameter, `Calculator.Arith`: the theorems hold for every
  interpretation of numerals and operators.
- Time is an argument; `clock(i)` in `RedisCommands` is the time read while handling argument i.
- A read outside a request or of an array slot that was never filled, and int overflow, are outcomes
  of their own (`PastEnd`, `Overflow`, `Undefined`), not preconditions.
- Two-way results name the branch that decides: `IsExpressionIff`, `CallsIndependentIff`,
  `RoundTripIff`, `AppendsReadBackIff`, `DecodeEncode`, `RequestRoundTripIff`, `SeenAlikeIff`,
  `DelRepliesAgreeIff`, `IncrAgreesIff`. `NextCallSpoiledIff`, `DelOfExpired` and `IncrOfExpired`
  are runs that fail.

Where code and its documentation disagree, the model follows the code. `db.h` of the server says
that all functions are thread-safe and that expired keys are removed when accessed, but `db_del`
takes no lock and neither `db_del` nor `db_incr` looks at the expiry; `DelRepliesAgreeIff` and
`IncrAgreesIff` say exactly when this shows, `DelOfExpired` and `IncrOfExpired` reach it from an
empty store. `DEL` of one stored key replies `OK`, not a number.

## Model

| member | source | states |
|---|---|---|
| `Infix.ShuntsToPostOrder` | 7. calculator/calculator.c:70-134 | Translating any expression of the grammar (two precedence levels, left grouping, three bracket kinds, any opener with any closer) over a stack on which nothing is due adds exactly the expression's post-order to the output and restores the stack |
| `Infix.PostfixIsPostOrder` | 7. calculator/calculator.c:85-135 | From an empty stack the emitted tokens are the post-order of the expression, nothing more |
| `Infix.PostfixOverLeftovers` | 7. calculator/calculator.c:85-135 | Over a stack an earlier call left behind, with no operator on top, the post-order is followed by exactly what the stack held |
| `Infix.LeftoverMeetsOne` | 7. calculator/calculator.c:114-133 | An operator left on top by an earlier call is emitted right after a single complete operand, whatever the expression |
| `Infix.NothingLost` | 7. calculator/calculator.c:85-134 | On any token list, well formed or not, and over any stack, numbers come out in their order and each operator exactly as often as it went in or was waiting |
| `Infix.StackLayered` | 7. calculator/calculator.c:100-127 | At every point of a translation of any token list, over any stack: the stack is what the translation put there above an untouched rest of the old one, precedence strictly increases above the nearest bracket, no three operators of its own stand together, and no bracket of its own has been emitted |
| `Infix.LexLexed` | 7. calculator/calculator.c:91-128 | The scanner yields numbers, brackets and the four operators, nothing else |
| `Infix.OthersSkipped` | 7. calculator/calculator.c:92-128 | Every character but digits, dots, the six brackets and the four operators is skipped |
| `Infix.GrammarIff` | 7. calculator/calculator.c:48-78 | The grammar by precedence is that of sums by + and - of products by * and / of numbers and bracketed sums, each grouped from the left |
| `Infix.IsExpressionIff` | 7. calculator/calculator.c:91-128 | A token list is that of some expression of the grammar if and only if operands and operators alternate and the brackets balance |
| `Infix.Unambiguous` | 7. calculator/calculator.c:48-78 | Expressions with the same tokens have the same post-order, so the two precedence levels leave nothing open |
| `Calculator.PostOrderComputes` | 7. calculator/calculator.c:138-181 | Evaluating a post-order over any operand stack pushes exactly the value of the expression, in front of any following tokens |
| `Calculator.EvalTextReads` | 7. calculator/calculator.c:143-179 | Evaluating the printed postfix text is evaluating its tokens: separators are enough for strtod to take each number whole, and a NUL in the text ends it |
| `Calculator.EvalComputes` | 7. calculator/calculator.c:184-189 | Compiler correctness: any text that scans to an expression evaluates to the value of its tree under any arithmetic, never underflows, and leaves the shared stack empty |
| `Calculator.ExpressionEvaluates` | 7. calculator/calculator.c:184-189 | The same from the text alone: when its tokens alternate, its brackets balance and its numbers are literals, eval returns the value of the expression it spells, one value for all trees with those tokens |
| `Calculator.AnySpacingEvaluates` | 7. calculator/calculator.c:92-93 | The same for every number of blanks before every token, none included |
| `CalculatorValues.PrecedenceValues` | 7. calculator/calculator.c:48-189 | For every three literals, every two operators and every spacing: + or - and then * or / takes the second operator first, every other pair goes from left to right |
| `CalculatorValues.BracketValues` | 7. calculator/calculator.c:100-112 | Brackets of all three kinds, also in mixed pairs, around either side override that |
| `CalculatorValues.LiteralIff` | 7. calculator/calculator.c:146-149 | strtod takes a run of digits and dots whole if and only if it is digits with at most one dot and at least one digit |
| `CalculatorValues.StrtodTakes` | 7. calculator/calculator.c:146-149 | Of other runs it takes the digits up to a second dot, and of a dot without digits nothing |
| `CalculatorValues.BracketEats` | 7. calculator/calculator.c:155-178 | An unmatched bracket in the postfix text takes two operands and leaves nothing: after any literals the result is the third from the last, or an underflow |
| `CalculatorValues.NulPopped` | 7. calculator/calculator.c:102-111 | A NUL on the stack passes for an opening bracket, since strchr finds the terminator of its list |
| `Calculator.RunsEvaluate` | 7. calculator/calculator.c:138-189 | Over any run of eval calls on expressions each call returns its own expression's value, although to_postfix never resets the stack |
| `Calculator.EvalOverLeftovers` | 7. calculator/calculator.c:130-180 | What a call does with an expression over every stack an earlier call can have left: with an operator on top it underflows, otherwise the leftover characters act, one token each, on the value of the expression |
| `Calculator.CallsIndependentIff` | 7. calculator/calculator.c:130-140 | As long as no leftover reads as a digit or dot, the next call is right if and only if the leftovers are blank up to a NUL or the end |
| `Calculator.LeftoverExample` | 7. calculator/calculator.c:138-181 | For any two literals: the text with only a blank between them evaluates to the second and leaves the first on the stack |
| `Calculator.NextCallSpoiledIff` | 7. calculator/calculator.c:130-180 | For any three literals a, b, c: eval of a and b side by side, then of c. The second call is right exactly when the first byte of the double of a is a blank or NUL, or a digit that stands for the number c; a dot loops, any other digit is the result, any other byte underflows. With a = 0.1, whose low byte is 0x9A as a little-endian IEEE double, it underflows |
| `Calculator.PostfixLength` | 7. calculator/calculator.c:80-134 | For every text and every stack the postfix form is empty or shorter than twice the text and the stack together |
| `Calculator.LexSpell` | 7. calculator/calculator.c:91-99 | Tokens written with any blanks between them scan back to the same tokens |
| `Calculator.Calculator.Push` | 7. calculator/calculator.c:20-30 | A new linked node in front: the list from top is the item and then the old list |
| `Calculator.Calculator.Pop` | 7. calculator/calculator.c:32-46 | Takes the first node off the linked list and returns its item; an empty list is an underflow |
| `Calculator.Calculator.CloseBracket` | 7. calculator/calculator.c:102-111 | The C loop takes the stack and the text to the state in which everything above the nearest opener is emitted and the opener is gone |
| `Calculator.Calculator.ReleaseOperators` | 7. calculator/calculator.c:120-123 | The C loop emits exactly the operators that bind at least as tightly as the incoming one, down to a bracket |
| `Calculator.Calculator.TakeNumber` | 7. calculator/calculator.c:93-99 | Consumes the longest run of digits and dots and appends it as one token |
| `Calculator.Calculator.ToPostfix` | 7. calculator/calculator.c:85-135 | The whole loop, on the C stack, prints the translation of the text over whatever the stack held, and empties the stack |
| `Calculator.Calculator.ApplySymbol` | 7. calculator/calculator.c:155-178 | Pops right operand then left; reports an underflow exactly with fewer than two values; a character that is no operator consumes two values and pushes none |
| `Calculator.Calculator.EvalPostfix` | 7. calculator/calculator.c:138-181 | The stack loop computes the outcome and the leftover stack that the evaluation of the text defines |
| `Calculator.Calculator.Evaluate` | 7. calculator/calculator.c:184-189 | eval refines the text-level meaning, whatever is on the stack when it is called |
| `Lcs.TracebackIsCommon` | 13. diff tool/diff_tool.c:79-89 | Every line the traceback collects is read off both inputs at strictly increasing positions |
| `Lcs.CommonIsNoLonger` | 13. diff tool/diff_tool.c:61-70 | No common subsequence of any two prefixes is longer than the table entry for them |
| `Lcs.TracebackIsLongest` | 13. diff tool/diff_tool.c:61-91 | The collected lines are a common subsequence and none is longer, although the fill keeps the upper cell on a tie and the traceback moves left |
| `Lcs.TracebackIsLatest` | 13. diff tool/diff_tool.c:79-89 | Of all longest common subsequences the traceback returns the one whose lines stand latest in the first list: no other reading has any of its lines later |
| `Lcs.FillTable` | 13. diff tool/diff_tool.c:55-70 | The loops fill every cell up to both line counts with the length the recurrence defines |
| `Lcs.LcsLines` | 13. diff tool/diff_tool.c:51-92 | For lists of at most 1000 lines the returned array has every slot written and is a longest common subsequence; the walk ends with the write index at 0 |
| `Crc32.PolynomialCoefficients` | 96. bitcask/helper.c:8 | The constant 0xEDB88320 lists exactly the coefficients of the generator in section 8 of RFC 1952, reflected |
| `Crc32.StepOfBv` | 96. bitcask/helper.c:15-20 | One inner step on a 32-bit machine word is the step on its list of bits |
| `Crc32.StepLinear` | 96. bitcask/helper.c:15-20 | One bit-step of the register commutes with exclusive or |
| `Crc32.StepInjective` | 96. bitcask/helper.c:15-20 | One bit-step loses no information |
| `Crc32.TableLookup` | 96. bitcask/helper.c:31-34 | Eight bit-steps are one shift by eight and one table entry |
| `Crc32.RunIsSteps` | 96. bitcask/helper.c:31-34 | Feeding up to 32 message bits is that many free steps of the register mixed with them; for four bytes, 32 steps of register ^ word |
| `Crc32.CrcIsRemainder` | 96. bitcask/helper.c:25-36 | For every byte string the checksum is the complemented remainder of schoolbook polynomial division, as section 8 of RFC 1952 defines it |
| `Crc32.CrcAffine` | 96. bitcask/helper.c:25-36 | For any three messages of one length, the checksum of their exclusive or is the exclusive or of their checksums |
| `Crc32.UndetectedIff` | 96. bitcask/helper.c:25-36 | Two messages of one length collide exactly when their difference alone returns a zero register to zero |
| `Crc32.BurstDetected` | 96. bitcask/helper.c:25-36 | Messages of any length that differ only inside a window of at most 32 bits, at any bit offset, have different checksums |
| `Crc32.FourByteBurstDetected` | 96. bitcask/helper.c:25-36 | The same for any window of at most four bytes |
| `Crc32.BurstBoundTight` | 96. bitcask/helper.c:25-36 | 33 bits are too many: in every message, at every offset with room, some 33-bit change keeps the checksum |
| `Crc32.CrcResidueIff` | 96. bitcask/helper.c:25-47 | A message followed by four little-endian bytes checks to 0x2144DF1C if and only if those bytes are its checksum |
| `Crc32.TableEntry` | 96. bitcask/helper.c:14-20 | The inner loop computes as many bit-steps of its start value as it makes turns |
| `Crc32.EntryOf` | 96. bitcask/helper.c:13-21 | The outer loop's pass computes the table entry of its index |
| `Crc32.Checksum.Init` | 96. bitcask/helper.c:11-23 | After the nested loops each of the 256 entries is eight bit-steps of its index |
| `Crc32.Checksum.Of` | 96. bitcask/helper.c:25-36 | The table-driven loop returns the bit-serial checksum of every byte string |
| `Words.PackU32` | 96. bitcask/helper.c:41-47 | Writes the four bytes of the word, least significant first, and no other byte of the buffer |
| `Words.PackU64` | 96. bitcask/helper.c:49-58 | Writes the eight bytes of the word, least significant first, and no other byte of the buffer |
| `Words.FlattenLittleEndian` | 96. bitcask/helper.c:41-58 | Packed bytes read back as the word |
| `Words.LittleEndianFlatten` | 96. bitcask/helper.c:41-58 | Any bytes are the packing of the word they read as |
| `Words.LittleEndianByShifts` | 96. bitcask/helper.c:43-46 | Byte k of the packing is what shifting by 8k and masking with 0xFF keeps |
| `BitcaskLog.DecodeEncode` | 96. bitcask/db.c:260-279 | A record in front of any bytes reads back, with matching checksum, as the same time, key and value if and only if both lengths are below 2^32 |
| `BitcaskLog.EncodedFields` | 96. bitcask/db.c:272-279 | Where each field stands: checksum of the rest at 0, time at 4, key length at 12, value length at 16, key at 20, value behind it |
| `BitcaskLog.DecodeSound` | 96. bitcask/db.c:272-279 | Bytes that read as a record begin with exactly the encoding of that record |
| `BitcaskLog.TornRecordRejected` | 96. bitcask/db.c:281-294 | No proper prefix of a record reads as a record |
| `BitcaskLog.ScanLog` | 96. bitcask/db.c:257-303 | Any concatenation of records parses back to the same records, up to a tail that holds none |
| `BitcaskLog.CrashRecovery` | 96. bitcask/db.c:281-294 | After an append cut short anywhere at the end of a log, a scan returns exactly the earlier records and the torn bytes |
| `BitcaskLog.LogScanSound` | 96. bitcask/db.c:257-303 | Of any bytes at all, the records a scan finds, encoded, and the rest it leaves make up the bytes |
| `BitcaskLog.AppendsReadBackIff` | 96. bitcask/db.c:281-302 | Over any run of appends, failed ones included, a scan returns exactly the records of the calls that succeeded and nothing else if and only if no call left a part of its record behind, since a failed call does not truncate |
| `BitcaskLog.TornHidesLaterIff` | 96. bitcask/db.c:281-302 | A record after stray bytes scans as the last one with nothing left over if and only if there are no stray bytes |
| `BitcaskLog.LogScanned` | 96. bitcask/db.c:257-303 | A log of whole records parses back to them with nothing left over |
| `BitcaskLog.LogAppend` | 96. bitcask/db.c:257-303 | Appending one record's bytes to a log gives the log with that record added last |
| `BitcaskLog.File.Write` | 96. bitcask/db.c:283 | An append accepts any prefix of the chunk, none of it on failure; request and result are remembered |
| `BitcaskLog.BuildRecord` | 96. bitcask/db.c:262-279 | The buffer filled by offsets is exactly the encoded record, checksum over all that follows it |
| `BitcaskLog.WriteAll` | 96. bitcask/db.c:281-294 | Every write asks for exactly what is left, another follows only one that landed something, and the loop fails if and only if some write landed nothing, which it does exactly when something is left; the file is the old bytes and the part of the buffer that is not left |
| `BitcaskLog.Append` | 96. bitcask/db.c:257-303 | -1 if and only if some write of this call returned 0 or -1, and then the file gained a proper prefix of the record; otherwise it gained the whole record, and the returned position addresses exactly the value bytes |
| `BitcaskLog.AppendOne` | 96. bitcask/db.c:257-303 | The same of one record: the writes it made, the bytes that landed, and a position exactly when no write was refused |
| `BitcaskLog.AppendAll` | 96. bitcask/db.c:257-303 | A run of calls on one file leaves exactly the bytes and makes exactly the writes of its calls in order, and each result tells whether a write of that call was refused |
| `BitcaskLog.AllSucceededReadBack` | 96. bitcask/db.c:257-303 | Where every call of a run on an empty file returned a position, the file scans to the records in order and nothing else |
| `Chains.ComputeBucket` | 8. redis server/redis_clone/src/db.c:15-23 | The 64-bit djb2 loop, folded into the number of buckets |
| `Chains.HashIs` | 8. redis server/redis_clone/src/db.c:15-23 | The hash in closed form: 5381 times a power of 33 and the characters weighted by powers of 33, modulo 2^64 |
| `Chains.BucketIs` | 96. bitcask/db.c:19-26 | A key's bucket is that hash modulo the number of buckets |
| `Chains.GetIsLookup` | 8. redis server/redis_clone/src/db.c:33-41 | A lookup of any key, stored or not, agrees with the map the table stands for |
| `Chains.SetIsUpdate` | 8. redis server/redis_clone/src/db.c:51-72 | install keeps every key in its bucket and unique, and updates exactly that key of the map |
| `Chains.RemoveIsMinus` | 8. redis server/redis_clone/src/db.c:81-100 | undef keeps the table well formed and removes exactly that key of the map |
| `Chains.TableRefinesMap` | 8. redis server/redis_clone/src/db.c:51-100 | Over any run of installs and removals from any well-formed table, the table stays well formed and stands for the map after the same run |
| `HashTable.Table.NodesDistinct` | 8. redis server/redis_clone/src/db.c:33-100 | No node is on two chains, or twice on one |
| `HashTable.Table.Lookup` | 8. redis server/redis_clone/src/db.c:33-41 | Walks the heap chain to the node that holds the key, or null exactly when no node does |
| `HashTable.Table.Overwrite` | 8. redis server/redis_clone/src/db.c:64-70 | Updating a stored key changes one node's value and no link |
| `HashTable.Table.Prepend` | 8. redis server/redis_clone/src/db.c:54-63 | A new key's node becomes the first of its bucket, ahead of the old chain |
| `HashTable.Table.Install` | 96. bitcask/db.c:71-98 | On the heap: update in place or prepend; afterwards every bucket is again a finite list and the table is the old one with the key set |
| `HashTable.Table.UnlinkFirst` | 8. redis server/redis_clone/src/db.c:86-88 | Unlinking the first node leaves the rest of its chain and all other chains |
| `HashTable.Table.UnlinkAfter` | 8. redis server/redis_clone/src/db.c:89-90 | Unlinking a middle or last node leaves its chain without exactly that entry |
| `HashTable.Table.FindWithPrevious` | 8. redis server/redis_clone/src/db.c:85-98 | The walk finds the node of the key with the one before it, or the end of the chain |
| `HashTable.Table.Undef` | 8. redis server/redis_clone/src/db.c:81-100 | Removes the key wherever it stands in its chain and reports whether it was there |
| `BitcaskStore.ItemIsLine` | 96. bitcask/db.c:156-187 | A clean item is delivered by one fgets whatever follows, even when the item buffer cut off its line end |
| `BitcaskStore.ItemLoads` | 96. bitcask/db.c:188-198 | Loading a clean item's line sets its key to its value |
| `BitcaskStore.CleanItem` | 96. bitcask/db.c:156-162 | A clean item is key, colon and value, and as much of CR and LF as the buffer holds |
| `BitcaskStore.ItemTextIs` | 96. bitcask/db.c:156-162 | Any item that fits the buffer is key, colon, value, CR, LF |
| `BitcaskStore.LongItemCut` | 96. bitcask/db.c:156-162 | A longer one is cut at 1023 characters |
| `BitcaskStore.LineLoads` | 96. bitcask/db.c:187-199 | A line ending in CR, LF, NUL or nothing sets the text before its first colon to the text after it |
| `BitcaskStore.LineSkipped` | 96. bitcask/db.c:190-192 | A line without a colon before its end loads nothing |
| `BitcaskStore.ColonKeyLoads` | 96. bitcask/db.c:156-199 | A key with a colon comes back cut at its first colon, the rest in front of the value |
| `BitcaskStore.BrokenValueReads` | 96. bitcask/db.c:156-188 | An entry whose value has a line feed is read as two lines |
| `BitcaskStore.ListingAppend` | 96. bitcask/db.c:152-169 | The listing goes through the buckets in order and through each chain from its front |
| `BitcaskStore.LoadListing` | 96. bitcask/db.c:187-199 | Loading the text of any list of clean entries sets them one after another |
| `BitcaskStore.SetAllReverses` | 96. bitcask/db.c:85-87 | Setting new keys one after another puts them into their buckets in reverse, ahead of what was there |
| `BitcaskStore.LoadSaveMirrors` | 96. bitcask/db.c:137-203 | Saving a clean table and loading it into a fresh one gives every chain reversed |
| `BitcaskStore.TwoPassesRestore` | 96. bitcask/db.c:137-203 | Two passes through a file restore the table to the order of each chain, so a third save writes the first file again |
| `BitcaskStore.MirrorContents` | 96. bitcask/db.c:71-107 | Reversing every chain leaves the map unchanged |
| `BitcaskStore.LoadCleans` | 96. bitcask/db.c:175-203 | Whatever the file contains, NULs included, loading it stores only keys without separator, line ends or NULs, values without line ends or NULs, and items that fit the buffer |
| `BitcaskStore.RoundTripIff` | 96. bitcask/db.c:137-203 | A table comes back from its own file as the same map if and only if every key avoids colon, CR, LF and NUL, every value avoids CR, LF and NUL, and each key, colon and value fit 1023 characters |
| `BitcaskStore.HtNew` | 96. bitcask/db.c:28-38 | A fresh table of 1024 empty chains stands for the empty map |
| `BitcaskStore.SaveTable` | 96. bitcask/db.c:152-169 | Walking the heap chains writes the text of the entries, bucket by bucket, in chain order |
| `BitcaskStore.ReadLine` | 96. bitcask/db.c:187 | The character loop of fgets splits off the next line, never empty, bounded by the buffer |
| `BitcaskStore.LoadItem` | 96. bitcask/db.c:188-198 | One line changes the heap table as its text says: none without a separator, else one key set |
| `BitcaskStore.LoadTable` | 96. bitcask/db.c:175-203 | The reading loop takes the heap table to the result of loading the file, line by line |
| `BitcaskStore.HtGet` | 96. bitcask/db.c:100-107 | Returns what the table's map has for the key, if anything |
| `Decimal.IsNumberIff` | 8. redis server/redis_clone/src/utils.c:15-34 | is_number accepts exactly blanks, at most one sign and digits whose value is an int, and atoi returns that value |
| `Decimal.StrtolText` | 8. redis server/redis_clone/src/resp.c:88 | Printed decimal text is read back in full, up to whatever non-digit follows, saturating outside a long |
| `Decimal.NumberByPlace` | 8. redis server/redis_clone/src/utils.c:20 | Each digit counts by its power of ten |
| `Resp.ParseSimpleString` | 8. redis server/redis_clone/src/resp.c:57-75 | The loop returns the text before the first CRLF, or all of it when there is none |
| `Resp.ParseArray` | 8. redis server/redis_clone/src/resp.c:123-145 | The cursor loop computes what the request's header and elements define, reads outside the request and int overflow included |
| `Resp.ParseElements` | 8. redis server/redis_clone/src/resp.c:134-143 | The loop collects the elements in order and stops early exactly where one is missing or takes a step C leaves undefined |
| `Resp.Parse` | 8. redis server/redis_clone/src/resp.c:165-186 | Dispatches on the type byte; other types, top-level bulk strings among them, end the program |
| `Resp.ElementReadsBack` | 8. redis server/redis_clone/src/server.c:53-61 | A printed bulk string of up to INT_MAX - 4 characters is read whole whatever it contains and whatever follows |
| `Resp.ArraysSmall` | 8. redis server/redis_clone/src/resp.c:128-145 | No text at all parses to an array of more than INT_MAX elements or with a word of more than INT_MAX - 4 characters, above which the cursor's step 2 + str_sz + 2 overflows an int |
| `Resp.NoBulkNoItems` | 8. redis server/redis_clone/src/resp.c:134-135 | An array that goes on with anything but a bulk string, or ends there, keeps its announced count but has no items |
| `Resp.RequestElements` | 8. redis server/redis_clone/src/resp.c:127-143 | Parsing a printed array lands the cursor on the first character of every element in turn and returns the words |
| `Resp.RequestRoundTripIff` | 8. redis server/redis_clone/src/resp.c:123-145 | A printed list of words, empty words and words with CRLF included, parses back to itself if and only if the count fits an int and each length is at most INT_MAX - 4 |
| `Resp.SimpleRoundTripIff` | 8. redis server/redis_clone/src/server.c:20-51 | A simple string or error survives printing and parsing if and only if it contains no CRLF |
| `Resp.UnendedSimple` | 8. redis server/redis_clone/src/resp.c:57-82 | Without its CRLF a simple string or error is taken to the end of the request |
| `Resp.IntegerRoundTripIff` | 8. redis server/redis_clone/src/resp.c:84-95 | A printed integer parses back to itself if and only if it is in the range of a long; so for every int |
| `RedisStore.LazyRefinesEager` | 8. redis server/redis_clone/src/db.c:27-140 | Over every run of SET, GET and EXISTS with a clock that never goes back, replies equal those of a map that drops each key the instant it expires |
| `RedisStore.ClockMustNotGoBack` | 8. redis server/redis_clone/src/db.c:27-30 | For every step back in time some run of two commands tells the two apart |
| `RedisStore.IncrAgreesIff` | 8. redis server/redis_clone/src/db.c:153-190 | INCR agrees with eager expiry, in reply and live store, if and only if the key is not a stored expired one |
| `RedisStore.IncrSeenIff` | 8. redis server/redis_clone/src/db.c:122-190 | A GET right after an INCR gives the eager answer if and only if the key was not a stored expired one |
| `RedisStore.IncrIsSuccessor` | 8. redis server/redis_clone/src/db.c:163-174 | An int below INT_MAX, however spelled, becomes the canonical text of its successor with its expiry kept; at INT_MAX the addition overflows, which C leaves undefined; a value that is no int leaves the store unchanged |
| `RedisStore.IncrCounts` | 8. redis server/redis_clone/src/db.c:153-190 | n INCRs on a missing key store the decimal text of n without expiry, for every n up to INT_MAX |
| `RedisStore.TextIsNumber` | 8. redis server/redis_clone/src/db.c:164-173 | The text stored for any int passes is_number and atoi returns the int |
| `RedisStore.Store.SetExpiring` | 8. redis server/redis_clone/src/db.c:112-120 | On the heap table: exactly the one key of the map is set |
| `RedisStore.Store.Fetch` | 8. redis server/redis_clone/src/db.c:122-140 | Returns the unexpired value, or none; a stored expired key is gone afterwards and nothing else changes |
| `RedisStore.Store.Delete` | 8. redis server/redis_clone/src/db.c:148-151 | Removes the key whether expired or not and reports whether it was stored |
| `RedisStore.Store.Increment` | 8. redis server/redis_clone/src/db.c:153-190 | On the heap table: seeds 1, or replaces the text and keeps the expiry, or refuses or overflows and changes nothing |
| `RedisCommands.OptionsRefusedIff` | 8. redis server/redis_clone/src/server.c:102-136 | The option loop refuses if and only if some argument in option position is unknown, lacks its number or has a bad one; otherwise the last option alone decides the expiry |
| `RedisCommands.ExpiryTimeIs` | 8. redis server/redis_clone/src/server.c:105-135 | EX is now and 1000 n, PX now and n, EXAT 1000 n, PXAT n, each modulo 2^64, and nothing else is an option |
| `RedisCommands.BadNumberIff` | 8. redis server/redis_clone/src/server.c:121-126 | A number is accepted if and only if it is blanks, at most one sign and digits, and positive; beyond a long it counts as the greatest long |
| `RedisCommands.SetAllOrNothing` | 8. redis server/redis_clone/src/server.c:91-145 | SET with a malformed option anywhere replies an error and leaves the store as it was; otherwise it replies OK and stores the value with the expiry of the last option |
| `RedisCommands.DelRemovesListed` | 8. redis server/redis_clone/src/server.c:165-170 | Over any key list with repeats, DEL removes exactly the listed keys |
| `RedisCommands.DelCountsDistinct` | 8. redis server/redis_clone/src/server.c:165-176 | The number of successful deletions is the number of distinct listed keys that were stored |
| `RedisCommands.DelReplies` | 8. redis server/redis_clone/src/server.c:165-176 | One stored key is answered OK and one absent key 0; any other number of keys is answered with how many distinct listed ones were stored; exactly the listed keys go |
| `RedisRuns.DelRepliesAgreeIff` | 8. redis server/redis_clone/src/server.c:165-176 | DEL of any key list replies as on the unexpired part of the store if and only if no listed key is stored and expired |
| `RedisCommands.RequestExecutes` | 8. redis server/redis_clone/src/server.c:68-77 | A printed request, its count within an int and its words within INT_MAX - 4 characters, reaches the dispatcher as exactly the words it was printed from |
| `RedisCommands.RunSet` | 8. redis server/redis_clone/src/server.c:91-145 | The SET branch on the heap store replies and changes the map as the option rules say |
| `RedisCommands.DeleteAll` | 8. redis server/redis_clone/src/server.c:166-170 | The DEL loop on the heap store counts and deletes as the fold over the keys does |
| `RedisCommands.RunDel` | 8. redis server/redis_clone/src/server.c:165-176 | One key is answered OK or 0, any other number of keys with the count |
| `RedisCommands.VerbIs` | 8. redis server/redis_clone/src/server.c:82-177 | Each of the seven names means its one command in any spelling of case, and every other name none of them |
| `RedisCommands.Dispatch` | 8. redis server/redis_clone/src/server.c:82-193 | The chain of case-blind name tests runs each command on the heap store as its map-level meaning says |
| `RedisCommands.ExecCommand` | 8. redis server/redis_clone/src/server.c:68-197 | From request text to reply text, on the heap store, error replies and undefined reads included |
| `RedisRuns.ServeAll` | 8. redis server/redis_clone/src/server.c:204-214 | Answering one message text after another on the heap store gives the reactions of the map-level run of what parse reads, up to an exit or an undefined step |
| `RedisRuns.ServesAlikeIff` | 8. redis server/redis_clone/src/server.c:68-197 | Replies alone: over any run of requests, as parse reads them from any texts, valid or not, with a nondecreasing clock and no INCR that meets a stored expired key, all are those of a store that drops expired keys at once if and only if no DEL lists a stored expired key |
| `RedisRuns.SeenAlikeIff` | 8. redis server/redis_clone/src/server.c:68-197 | Over any run of requests, as parse reads them from any texts, valid or not, with a nondecreasing clock: replies and live stores are step by step those of eager expiry if and only if no DEL lists and no INCR counts on a stored expired key |
| `RedisRuns.ExpiryInvisible` | 8. redis server/redis_clone/src/server.c:68-164 | End to end: over any run of requests other than DEL and INCR, as parse reads them from any texts, with any options, spelling and errors, the replies are those of the eagerly expiring store |
| `RedisRuns.DelOfExpired` | 8. redis server/redis_clone/src/server.c:165-176 | From an empty store: SET with an expiry, then DEL after it, replies OK where eager expiry replies 0 |
| `RedisRuns.IncrOfExpired` | 8. redis server/redis_clone/src/server.c:177-190 | From an empty store: SET of a number with an expiry, then INCR after it, replies its successor where eager expiry replies 1 |
| `RedisRuns.ServeIsLazy` | 8. redis server/redis_clone/src/server.c:68-164 | The replies to any run of well-formed SET, GET and EXISTS requests, in any spelling and with any options, are the printed replies of the lazy store |
| `RedisRuns.ServeIsEager` | 8. redis server/redis_clone/src/server.c:68-164 | And so, with a nondecreasing clock, the printed replies of the eagerly expiring map |
| `RedisReplies.PingReplies` | 8. redis server/redis_clone/src/server.c:82-84 | PING is answered with the bytes of PONG |
| `RedisReplies.EchoReplies` | 8. redis server/redis_clone/src/server.c:85-90 | ECHO sends its argument back as a bulk string, or refuses without one |
| `RedisReplies.SetReplies` | 8. redis server/redis_clone/src/server.c:91-145 | SET stores exactly one key and answers OK, or answers one of its three refusals and stores nothing |
| `RedisReplies.GetReplies` | 8. redis server/redis_clone/src/server.c:146-156 | GET answers the bytes of the value while it has no expiry or the time is before it, and the nil bulk string otherwise |
| `RedisReplies.ExistsReplies` | 8. redis server/redis_clone/src/server.c:157-164 | EXISTS answers 1 for exactly those keys and 0 for all others |
| `RedisReplies.DelOneReplies` | 8. redis server/redis_clone/src/server.c:165-176 | DEL of one key answers OK when it was stored and 0 when not |
| `RedisReplies.IncrReplies` | 8. redis server/redis_clone/src/server.c:177-190 | INCR answers 1 for a missing key, the next number for a number below INT_MAX, and a refusal for anything else |
| `RedisReplies.UnknownReplies` | 8. redis server/redis_clone/src/server.c:191-193 | Every other name is refused |
| `RedisReplies.BareNames` | 8. redis server/redis_clone/src/server.c:74-193 | A bare name as a request: PING answers, commands that need arguments are refused, EXISTS and DEL read arguments that are not there |
| `RedisReplies.ArrayCases` | 8. redis server/redis_clone/src/server.c:74-81 | An array of no words is refused; one that announces more than it holds is used beyond what was read |
| `RedisReplies.OtherTypes` | 8. redis server/redis_clone/src/resp.c:171-185 | Errors and integers are no commands; bulk strings and unknown types end the program |
| `RedisReplies.ExpiryObserved` | 8. redis server/redis_clone/src/server.c:98-152 | Over requests as parse reads them, in any spelling of names and number: a key SET with EX n at time t is answered by GET at u if and only if u < t + 1000 n; with PX n, t + n; with EXAT n, 1000 n; with PXAT n, n; as long as that is below 2^64 |
| `RedisReplies.TextAsks` | 8. redis server/redis_clone/src/resp.c:123-145 | The text that spells these words is read as the command of these words, in any spelling of its names and numbers |
| `RedisReplies.WithoutOptionStays` | 8. redis server/redis_clone/src/server.c:98-152 | A key SET without option is answered at every time |
| `RoundRobin.PickIsNearest` | 5. load balancer/theories/lessons/lb.c:111-122 | -1 is returned if and only if no backend is healthy, and then the cursor is back where it was; otherwise the pick is the first healthy backend from the cursor, which ends just past it |
| `RoundRobin.HealthIsLastReport` | 5. load balancer/theories/lessons/lb.c:95-103 | After any schedule a backend's health is its last report, or its first health when there was none |
| `RoundRobin.PicksFollowReports` | 5. load balancer/theories/lessons/lb.c:91-122 | Over every schedule each pick is a backend whose last report before it was up, and -1 exactly when every backend was last reported down |
| `RoundRobin.PicksBypass` | 5. load balancer/theories/lessons/lb.c:91-122 | Under any interleaving with health writes, the picks made while a healthy backend waits are all different and lie between cursor and it |
| `RoundRobin.BoundedBypass` | 5. load balancer/theories/lessons/lb.c:91-122 | While a backend that stays healthy is not picked, every other is picked at most once and no pick fails |
| `RoundRobin.NoStarvation` | 5. load balancer/theories/lessons/lb.c:91-122 | A backend that stays healthy is among any n successive picks, n the number of backends |
| `RoundRobin.BalanceConserved` | 5. load balancer/theories/lessons/lb.c:91-122 | For two backends that stay healthy the difference of their pick counts is exactly the change in which of them comes next, under any schedule |
| `RoundRobin.Balanced` | 5. load balancer/theories/lessons/lb.c:91-122 | So their pick counts never differ by more than one, whatever happens to the other backends |
| `RoundRobin.AllUpRotates` | 5. load balancer/theories/lessons/lesson5_roundrobin.c:29-35 | While all backends stay healthy, the picks of any schedule are the plain rotation of next_backend |
| `RoundRobin.Balancer.PickHealthy` | 5. load balancer/theories/lessons/lb.c:111-122 | The loop on the shared state returns the pick and leaves the cursor that the transition defines; health is untouched |
| `RoundRobin.Balancer.SetHealth` | 5. load balancer/theories/lessons/lb.c:97-102 | The health write changes exactly that backend's health to what was reported, and not the cursor |
| `RoundRobin.Rotator.NextBackend` | 5. load balancer/theories/lessons/lesson5_roundrobin.c:29-35 | Returns the counter and moves it one on around the ring |
| `RoundRobin.Rotator.Serve` | 5. load balancer/theories/lessons/lesson5_roundrobin.c:29-35 | k successive calls return the rotation from the counter |
| `Pipeline.ChildEndsWired` | 14. shell/ccsh.c:175-180 | Whatever descriptors pipe() hands out, the calls of child i leave it the shell's descriptors, pipe i-1 on standard input, pipe i on standard output, and no other pipe end |
| `Pipeline.ShellEndsClean` | 14. shell/ccsh.c:187-189 | The shell's closes give it back exactly the descriptors it had |
| `Pipeline.EndsPlaced` | 14. shell/ccsh.c:146-194 | After every finished schedule, in any process, the shell and the programs the children fork included: the write end of pipe k is on the standard output of child k and its program and nowhere else, its read end on the standard input of child k+1 and its program and nowhere else, and the last pipe has no end left |
| `Pipeline.EndOfFileIff` | 14. shell/ccsh.c:146-194 | After every finished schedule, of any processes still alive none holds the write end of pipe k if and only if child k and the program it forked have exited |
| `Pipeline.AnyScheduleWires` | 14. shell/ccsh.c:169-189 | In whatever order shell and children make their system calls after each fork, once all are done every child is wired and the shell is clean |
| `Pipeline.StuckIffFinished` | 14. shell/ccsh.c:169-189 | At every point of every schedule, nobody has a call left to make if and only if all are done |
| `Pipeline.OpenPipes` | 14. shell/ccsh.c:166-167 | The loop opens n pipes on 2n different descriptors that were not in use |
| `Pipeline.Proc.Wire` | 14. shell/ccsh.c:175-180 | The child's branch makes its dup2 and close calls in the source's order |
| `Pipeline.Proc.ClosePipes` | 14. shell/ccsh.c:187-189 | The loop closes both ends of every pipe and nothing else |
| `Pipeline.HandleCmd` | 14. shell/ccsh.c:160-189 | The two loops leave every child wired and the shell's table as before |
| `LineEditor.DraftComesBack` | 14. shell/ccsh.c:325-348 | Leave the line with UP, do anything that stays inside the history, edits included, return with DOWN: the line is the one left |
| `LineEditor.UpDownIsIdentity` | 14. shell/ccsh.c:325-348 | k UPs show item hc-k and k DOWNs after them show the original line, for every k up to the history's length |
| `LineEditor.BytesRunKeys` | 14. shell/ccsh.c:282-362 | For all bytes, escape sequences cut short included, the line read is the line the keys they stand for enter |
| `LineEditor.EnterEndsLine` | 14. shell/ccsh.c:282-362 | Keys sent as bytes, a line end, and more: the line read is the line edited and exactly what follows the line end is left to read |
| `LineEditor.TypedLineReads` | 14. shell/ccsh.c:359-363 | Text of plain characters that fits the buffer, typed at a fresh prompt and entered, is read as typed, and what follows is left |
| `LineEditor.LongLineCut` | 14. shell/ccsh.c:289-291 | Longer text is entered at the size of the buffer, and the byte after that is lost |
| `LineEditor.BackspaceUndoes` | 14. shell/ccsh.c:294-301 | Backspace takes back the character typed before it, and does nothing on an empty line |
| `LineEditor.InterruptForgets` | 14. shell/ccsh.c:306-313 | CTRL-C forgets line, draft and place in the history |
| `LineEditor.UpShows` | 14. shell/ccsh.c:325-335 | The bytes of UP show the item before, without its line end, and on leaving the line under work set that aside; at the oldest item they do nothing |
| `LineEditor.DownShows` | 14. shell/ccsh.c:337-349 | The bytes of DOWN show the item after, or past the newest the line set aside; there they do nothing |
| `LineEditor.OthersIgnored` | 14. shell/ccsh.c:315-357 | Every other escape sequence does nothing |
| `LineEditor.Editor.Press` | 14. shell/ccsh.c:293-359 | Each key changes line, draft and position as the transition says; the position stays between 0 and hc and the history is never changed |
| `LineEditor.Editor.ReadLine` | 14. shell/ccsh.c:282-362 | The loop over any bytes returns the line that their keys enter, or none at the end of input, and the bytes left unread |
| `Uniq.GroupsIff` | 10. uniq/uniq.c:56-97 | The groups are the one and only list with positive counts and differing neighbours that expands to the input, and the counts sum to the number of lines |
| `Uniq.FiltersPartition` | 10. uniq/uniq.c:58-60 | The groups shown by -d and those shown by -u interleave to exactly those shown by default, in order; with both flags -u decides |
| `Uniq.SelectedAreShown` | 10. uniq/uniq.c:58-60 | A group is selected if and only if it is a group of the input and passes the filter |
| `Uniq.FiltersSelect` | 10. uniq/uniq.c:58-60 | -u selects exactly the groups of count 1, -d exactly those of a greater count, neither every group |
| `Uniq.PrintedIs` | 10. uniq/uniq.c:62-78 | With -c the line comes after its count, padded to three places, and a blank; without, alone |
| `Uniq.OutputShowsSelected` | 10. uniq/uniq.c:57-78 | The printed text is the unfiltered print of the selected groups |
| `Uniq.OutputConcatenates` | 10. uniq/uniq.c:62-97 | The output is the printed groups that were selected, one after another, and nothing between |
| `Uniq.Run` | 10. uniq/uniq.c:53-97 | The one-pass loop with its final flush prints the filtered run-length encoding of every sequence of nonempty lines |

## Left out

- Calculator.CallsIndependentIff: says nothing of leftovers that read as digits or dots, because the result then depends on the arithmetic; `Calculator.EvalOverLeftovers` says for all leftovers what it is.
- The fixed postfix buffer and its missing terminator (`7. calculator/calculator.c:87`): the text grows; `Calculator.PostfixLength` gives the size it needs.
- What strtod does beyond digits and one dot, and IEEE rounding: the arithmetic is a parameter.
- `execvp` and `wait`: the wiring ends where a child's program starts, with the child's descriptors.
- Pipeline.HandleCmd: makes each child's calls as it is forked; every other order is covered by `Pipeline.AnyScheduleWires`. The shell must hold descriptors 0 and 1, since otherwise `pipe` may hand them out, and `pipe` and `fork` do not fail.
- LineEditor.Editor.ReadLine: a line of exactly the buffer's size has room for its terminator; an escape sequence cut short by the end of input leaves C with indeterminate bytes, which the read after it makes unobservable.
- Redrawing the prompt, `trim`, `build_args` and reading the history file.
- BitcaskLog.Append: a write past the largest file, a failing `malloc` and a failing `lseek` are not modelled, and the time is an argument.
- BitcaskStore.SaveTable: `db_save` ignores the result of `write`, so each write is taken whole; path checks and opening files are left out.
- Both hash tables: failing allocation and `free`; returned strings are values, so aliasing of stored and returned text is not captured.
- RedisStore.LazyRefinesEager: covers SET, GET and EXISTS; `RedisRuns.SeenAlikeIff` covers every request.
- RedisRuns.ServesAlikeIff: leaves out runs in which an INCR meets a stored expired key, since its reply can agree by chance and only a later request tell; `RedisRuns.SeenAlikeIff` includes them.
- The server's locks and threads: commands run one at a time, and one clock reading is made for each argument.
- RedisCommands.ExecCommand: a request with fewer elements than announced is `Undefined` as a whole, since the reply may be built but the unfilled slots are then freed. Requests longer than the connection's read buffer are not modelled.
- Resp.Parse: requests hold no NUL, and a read past the NUL that ends one is undefined even where the connection's buffer goes on; `get_identify_type` on the five type bytes is the dispatch itself.
- RoundRobin.Balancer.PickHealthy: is one atomic step, as the lock makes it; the health checks over the network are the Boolean they report.
- Uniq.Run: one logical output: the source sends the last group to standard output even when an output file is open (`10. uniq/uniq.c:87-97`). Lines longer than the buffer and counts beyond an int are left out.
- Lcs.LcsLines: lists longer than 1000 lines overrun the source's table and are excluded.
- `build_lcs_table` and `lcs_word` (`13. diff tool/diff_tool.c:12-48`): one is unfinished, the other has no body.
- `bitcask_open` and closing, sockets, terminal modes, the other lesson servers, cut, grep, wc and the language demos are not modelled.
