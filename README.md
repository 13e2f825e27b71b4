# nsq Java client core, modelled in Dafny

This project models three sequential parts of the youzan nsq Java client and proves properties of them.

- **`Mpub`**: the MPUB (multi-publish) command encoder.
  - `getHeader()` builds the text line `MPUB <topic>[ <partition>]\n`.
  - `getBytes()` adds up the body size in one loop. It then allocates a `ByteBuffer` and puts the header, the size field and the message count into it. A second loop writes each message's 4-byte big-endian length followed by its bytes.
  - The model keeps both loops and the buffer, an array written at a moving position. They are proved to produce exactly `Encoding`, a pure description of the byte layout. A parser for that layout gets the message list back.
- **`NSQConnectionImpl`**: the per-connection state of the consumer. This covers:
  - the RDY flow-control counters (`currentRdy`, `lastRdy`, `expectedRdy`) and the `backoff` flag;
  - the (internal id, disk queue offset) watermark used by ordered consumption;
  - the `identitySent` and `closing` lifecycle flags;
  - the two capacity-one queues `requests` and `responses`, which keep at most one command waiting for its answer.

  Each transition is a pure function over a `State` value. The class `NSQConnection` holds the same state in fields, and each of its methods is proved to perform exactly the matching transition.
- **`LookupServiceImpl`**: the client's list of nsqlookupd servers. This covers:
  - parsing a comma-separated address string: split, trim, remove spaces, sort;
  - the round-robin server choice `((offset++) & Integer.MAX_VALUE) % size` on a 32-bit offset;
  - the query URLs, and the result sets built from already-parsed responses;
  - the periodic refresh of the list.

Java semantics used throughout:
- `int` and `long` are bounded newtypes (`int32`, `int64`);
- `x++` and `x - 1` on an `int` wrap modulo 2^32 (`Wrap32`, `Inc32`);
- `putInt` writes big-endian (`BigEndian32`);
- the `String` methods `trim`, `replace(" ", "")` and `split(",")`, and `compareTo` order, are written out in `JavaStrings`.

Things the external world decides become parameters:
- whether the channel is active;
- whether an asynchronous write completed;
- what arrives while a command waits for its answer (`Wait`);
- the parsed JSON reply to a lookup query;
- the random starting offset.

## Behaviour worth knowing

Each item below comes out of the code as written and is recorded by a lemma.

- **The MPUB size field counts itself.**
  - The size field holds `8 + Σ(4 + |m|)`. That is the number of bytes from the size field to the end, its own four bytes included.
  - The MPUB layout of the NSQ TCP protocol gives the body size as `4 + Σ(4 + |m|)`, the count field and frames only. The field is therefore 4 larger than the protocol's.
  - The model encodes what the code writes. `Mpub.SizeFieldCountsItself` states the relation and `Mpub.OrdersExample` shows a concrete case: 19 where the protocol has 15.
- **Backed off does not mean a count of 0.**
  - `onBackoff` sets `backoff` before writing RDY 0. If the write does not complete, the connection stays backed off with its old count.
  - Every `onRdy` is then refused (`Connection.BackedOffWithoutZeroCount`, `Connection.BackedOffIgnoresRdy`).
- **A failed exchange blocks every later one.**
  - `_commandAndGetResposne` frees the request slot only when a response arrives. A write timeout, a poll timeout or an interrupt leaves the slot taken.
  - In a sequential history, every later request times out without writing its command (`Connection.FailedExchangeBlocksLater`).
- **An unsolicited response frame is lost.** `addResponseFrame` with no outstanding request drops the frame; the frame does not answer the next command (`Connection.UnsolicitedResponseDropped`). An error frame is queued whenever the response slot is free, with or without a request (`Connection.ErrorArrives`).
- **`expectedRdy` wraps at the `int` limits.**
  - `declineExpectedRdy` guards with `expectedRdy - 1 >= 0`, which wraps at `Integer.MIN_VALUE`.
  - `increaseExpectedRdy` guards with `expectedRdy + 1 <= rdy`, which wraps at `Integer.MAX_VALUE`. With a configured RDY of `Integer.MAX_VALUE`, one more increase yields `Integer.MIN_VALUE` (`Connection.IncreaseWrapsAtMax`).
  - The range invariant `0 <= expectedRdy <= rdy` is proved for a configured RDY below `Integer.MAX_VALUE`.
- **`expectedRdy` does not bound `currentRdy`.**
  - A configured RDY of 0 starts with `currentRdy` 1 above `expectedRdy` 0.
  - `onRdy(n)` sets any count the caller passes, whatever `expectedRdy` is.
  - `declineExpectedRdy` lowers `expectedRdy` and leaves `currentRdy` as it was.
  - `Connection.CurrentRdyAboveExpected` shows one case of each. The invariant proved is therefore only that the counts are not negative and, for a configured RDY below `Integer.MAX_VALUE`, that `0 <= expectedRdy <= rdy`.
- **The round robin skips at the offset's wrap.** With three servers, the query after offset `Integer.MAX_VALUE` uses server 0 rather than 2, because the masked offset jumps from 2^31 - 1 to 0 (`Lookup.RoundRobinSkipsAtWrap`).
- **An address string of commas alone gives an empty list.**
  - `",,".split(",")` has no pieces, so the String constructor accepts it with an empty address list (`Lookup.CommasOnly`).
  - Every later `lookup` of a non-empty topic, and every later `getAllTopics`, then divides by zero, which is an `ArithmeticException`, modelled as `Failure(ArithmeticException)`.

## Model

| member | source | states |
|---|---|---|
| JavaNumbers.Wrap32 | src/main/java/com/youzan/nsq/client/core/NSQConnectionImpl.java:439-449 | Java `int` arithmetic: the result is congruent to the exact value modulo 2^32, and equals it when it is in range |
| JavaNumbers.Inc32 | src/main/java/com/youzan/nsq/client/core/lookup/LookupServiceImpl.java:186 | `x++`: one more below `Integer.MAX_VALUE`, `Integer.MIN_VALUE` after it |
| JavaNumbers.Bits | src/main/java/com/youzan/nsq/client/core/lookup/LookupServiceImpl.java:186 | the unsigned reading of an `int`'s 32 bits: `x` when not negative, `x + 2^32` otherwise |
| JavaNumbers.BigEndian32 | src/main/java/com/youzan/nsq/client/core/command/Mpub.java:44-48 | `putInt` writes exactly four bytes |
| JavaNumbers.ReadBigEndian32 | src/main/java/com/youzan/nsq/client/core/command/Mpub.java:44-48 | four bytes read most significant first give a number in [0, 2^32) |
| JavaNumbers.ReadBigEndian32OfWrite | src/main/java/com/youzan/nsq/client/core/command/Mpub.java:44-48 | reading back the four bytes `putInt` writes gives the original value |
| JavaNumbers.WriteBigEndian32OfRead | src/main/java/com/youzan/nsq/client/core/command/Mpub.java:44-48 | any four bytes are the `putInt` encoding of the value they denote, so the length field is a bijection |
| JavaNumbers.DecimalString | src/main/java/com/youzan/nsq/client/core/command/Mpub.java:57 | the decimal text of an `int`: non-empty, digits and a leading minus exactly for negative values |
| JavaNumbers.DecimalRoundTrip | src/main/java/com/youzan/nsq/client/core/lookup/LookupServiceImpl.java:162 | the decimal text of an integer determines it: reading it back gives the integer |
| JavaStrings.LeadingBlanks | src/main/java/com/youzan/nsq/client/core/lookup/LookupServiceImpl.java:88 | the longest prefix of characters up to U+0020 that `trim` removes |
| JavaStrings.TrimmedEnd | src/main/java/com/youzan/nsq/client/core/lookup/LookupServiceImpl.java:88 | the end of `trim`'s result: all characters after it are blank and the one before it is not |
| JavaStrings.Trim | src/main/java/com/youzan/nsq/client/core/lookup/LookupServiceImpl.java:88 | `trim()`: the result neither starts nor ends with a blank, is unchanged for a string without outer blanks, and empty for an all-blank string; it is a slice of the input with only blanks before and after it |
| JavaStrings.RemoveSpaces | src/main/java/com/youzan/nsq/client/core/lookup/LookupServiceImpl.java:89 | `replace(" ", "")`: no space remains, every other character keeps its count, and a string without spaces is unchanged; the order of the kept characters is given by `RemoveSpacesConcat` and `RemoveSpacesChar` |
| JavaStrings.RemoveSpacesConcat | src/main/java/com/youzan/nsq/client/core/lookup/LookupServiceImpl.java:89 | removing spaces from `a + b` gives the kept characters of `a` followed by those of `b`, so the kept characters stay in order |
| JavaStrings.RemoveSpacesChar | src/main/java/com/youzan/nsq/client/core/lookup/LookupServiceImpl.java:89 | a single character is dropped iff it is a space; with `RemoveSpacesConcat` this fixes the result for every string |
| JavaStrings.UpTo | src/main/java/com/youzan/nsq/client/core/lookup/LookupServiceImpl.java:162 | the prefix before the first separator: a prefix without the separator, followed by it if shorter |
| JavaStrings.UpToConcat | src/main/java/com/youzan/nsq/client/core/lookup/LookupServiceImpl.java:162 | text joined before a separator it does not contain is recovered whole |
| JavaStrings.SplitAll | src/main/java/com/youzan/nsq/client/core/lookup/LookupServiceImpl.java:83 | the pieces between separators, none containing the separator, at least one |
| JavaStrings.JoinSplitAll | src/main/java/com/youzan/nsq/client/core/lookup/LookupServiceImpl.java:83 | splitting loses nothing: the pieces joined with the separator give back the input |
| JavaStrings.SplitAllCount | src/main/java/com/youzan/nsq/client/core/lookup/LookupServiceImpl.java:83 | there is one more piece than separators |
| JavaStrings.DropTrailingEmpty | src/main/java/com/youzan/nsq/client/core/lookup/LookupServiceImpl.java:83 | a prefix of the pieces that does not end in an empty piece, and only empty pieces were dropped |
| JavaStrings.JavaSplit | src/main/java/com/youzan/nsq/client/core/lookup/LookupServiceImpl.java:83 | `split(",")`: the whole input when it has no comma, otherwise the pieces with trailing empty ones removed, so the last piece kept is not empty; no piece contains a comma |
| JavaStrings.LexLeReflexive | src/main/java/com/youzan/nsq/client/core/lookup/LookupServiceImpl.java:92 | `compareTo` order: every string is at most itself |
| JavaStrings.LexLeTotal | src/main/java/com/youzan/nsq/client/core/lookup/LookupServiceImpl.java:92 | any two strings are comparable |
| JavaStrings.LexLeAntisymmetric | src/main/java/com/youzan/nsq/client/core/lookup/LookupServiceImpl.java:92 | two strings each at most the other are equal |
| JavaStrings.LexLeTransitive | src/main/java/com/youzan/nsq/client/core/lookup/LookupServiceImpl.java:92 | the order is transitive |
| JavaStrings.Insert | src/main/java/com/youzan/nsq/client/core/lookup/LookupServiceImpl.java:92 | inserting into a sorted list keeps it sorted and adds exactly that element |
| JavaStrings.Sort | src/main/java/com/youzan/nsq/client/core/lookup/LookupServiceImpl.java:70 | `Collections.sort`: the result is ascending and a permutation of the input |
| JavaStrings.SortedPermutationUnique | src/main/java/com/youzan/nsq/client/core/lookup/LookupServiceImpl.java:92 | two sorted permutations of the same list are equal, so `Sort` gives what the library's sort gives |
| JavaNio.ByteBuffer.Allocate | src/main/java/com/youzan/nsq/client/core/command/Mpub.java:42 | `allocate(n)`: a fresh zero-filled backing array of length n, positioned at its start |
| JavaNio.ByteBuffer.Put | src/main/java/com/youzan/nsq/client/core/command/Mpub.java:43 | `put(src)`: the written bytes grow by exactly `src` and the position moves past it |
| JavaNio.ByteBuffer.PutInt | src/main/java/com/youzan/nsq/client/core/command/Mpub.java:44-45 | `putInt(v)`: the written bytes grow by the four big-endian bytes of `v` |
| Mpub.HeaderRoundTrip | src/main/java/com/youzan/nsq/client/core/command/Mpub.java:55-58 | the header is `MPUB `, the topic text, a space and the partition id when there is one, and a newline: reading it back recovers the topic and partition |
| Mpub.HeaderBytes | src/main/java/com/youzan/nsq/client/core/command/Mpub.java:30 | the header's bytes, one per character of the ASCII header line |
| Mpub.HeaderText | src/main/java/com/youzan/nsq/client/core/command/Mpub.java:55-58 | the header line `"MPUB " + text`, `" " + partition` when there is one, and a newline; `HeaderRoundTrip` is its inverse |
| Mpub.MpubCommand.GetHeader | src/main/java/com/youzan/nsq/client/core/command/Mpub.java:55-58 | starts with `MPUB `, ends with a newline, and `ParseHeader` recovers the topic from it when the topic text has no space |
| Mpub.MpubCommand.GetBody | src/main/java/com/youzan/nsq/client/core/command/Mpub.java:61-63 | returns exactly the list given at construction, which is also the list the body of `Encoding` parses back to |
| Mpub.FramesSize | src/main/java/com/youzan/nsq/client/core/command/Mpub.java:33-40 | the room the messages take, at least 4 per message |
| Mpub.FramesSizeAppend | src/main/java/com/youzan/nsq/client/core/command/Mpub.java:36-39 | each further message adds 4 plus its length |
| Mpub.Frames | src/main/java/com/youzan/nsq/client/core/command/Mpub.java:47-50 | the framed messages take exactly the room the first loop adds up |
| Mpub.FramesAppend | src/main/java/com/youzan/nsq/client/core/command/Mpub.java:47-50 | framing one more message appends its big-endian length and its bytes |
| Mpub.FramesStep | src/main/java/com/youzan/nsq/client/core/command/Mpub.java:47-50 | what one iteration of the second loop appends, and that the prefix stays within the whole |
| Mpub.ParseFramesOfFrames | src/main/java/com/youzan/nsq/client/core/command/Mpub.java:47-50 | reading as many frames as there are messages gives back the message list |
| Mpub.FrameAt | src/main/java/com/youzan/nsq/client/core/command/Mpub.java:47-50 | message i's frame starts right after the frames of the messages before it: 4 bytes that read as its length, then exactly its bytes |
| Mpub.FrameLengthAt | src/main/java/com/youzan/nsq/client/core/command/Mpub.java:48 | message i's length field is the `putInt` of its length, at the offset of the frames before it |
| Mpub.FramePayloadAt | src/main/java/com/youzan/nsq/client/core/command/Mpub.java:49 | message i's bytes follow its length field |
| Mpub.FrameBeginsAt | src/main/java/com/youzan/nsq/client/core/command/Mpub.java:47-50 | the frames of the messages up to and including i begin the whole framing |
| Mpub.FramesPrefix | src/main/java/com/youzan/nsq/client/core/command/Mpub.java:47-50 | the frames of a prefix of the list begin the frames of the whole list |
| Mpub.FramesSizeLe | src/main/java/com/youzan/nsq/client/core/command/Mpub.java:33-40 | a prefix of the list takes no more room than the list |
| Mpub.Encoding | src/main/java/com/youzan/nsq/client/core/command/Mpub.java:27-53 | the bytes `getBytes()` returns: header, size field, count field, frames; its length is the header's plus 8 plus 4 + length per message |
| Mpub.EncodingFields | src/main/java/com/youzan/nsq/client/core/command/Mpub.java:42-50 | the header bytes, then a size field reading `8 + Σ(4 + len)`, then a count field reading the message count, then the frames |
| Mpub.EncodingSlices | src/main/java/com/youzan/nsq/client/core/command/Mpub.java:42-50 | the same layout in terms of the exact bytes of each field |
| Mpub.SizeFieldCountsItself | src/main/java/com/youzan/nsq/client/core/command/Mpub.java:33 | the size field equals the number of bytes from the size field to the end, which is 4 more than the protocol's body size |
| Mpub.BodyRoundTrip | src/main/java/com/youzan/nsq/client/core/command/Mpub.java:33-52 | everything after the header parses back to exactly the message list |
| Mpub.EmptyEncoding | src/main/java/com/youzan/nsq/client/core/command/Mpub.java:33-52 | no messages encode as the header, size 8 and count 0 |
| Mpub.OrdersExample | src/main/java/com/youzan/nsq/client/core/command/Mpub.java:33-57 | topic "orders" with "a" and "bb": a 12-byte header, size field 19, count 2, frames `0 0 0 1 a 0 0 0 2 b b`; the protocol's size would be 15 |
| Mpub.OrdersFrames | src/main/java/com/youzan/nsq/client/core/command/Mpub.java:47-50 | the frames of "a" and "bb", byte for byte |
| Mpub.MpubCommand.GetBytes | src/main/java/com/youzan/nsq/client/core/command/Mpub.java:27-53 | `getBytes()` returns a fresh array holding exactly `Encoding` of the topic and `getBody()` |
| Mpub.BodySize | src/main/java/com/youzan/nsq/client/core/command/Mpub.java:33-40 | the first loop computes `8 + Σ(4 + len)` |
| Mpub.PutFrames | src/main/java/com/youzan/nsq/client/core/command/Mpub.java:47-50 | the second loop appends exactly the frames to what the buffer held |
| Connection.Initial | src/main/java/com/youzan/nsq/client/core/NSQConnectionImpl.java:37-79 | the constructed state satisfies the invariant, has the expected count in range when the configured RDY is not negative, and has both flags clear and nothing written |
| Connection.NSQConnection.constructor | src/main/java/com/youzan/nsq/client/core/NSQConnectionImpl.java:64-79 | counts 1 and 1, the configured RDY expected, watermark (-1, -1), flags and slots clear |
| Connection.Connected | src/main/java/com/youzan/nsq/client/core/NSQConnectionImpl.java:246-253 | the channel is active and close has not begun; `ClosingStaysDisconnected` shows it never holds again once closing |
| Connection.NSQConnection.IsConnected | src/main/java/com/youzan/nsq/client/core/NSQConnectionImpl.java:246-253 | the fields' answer is `Connected` of the snapshot |
| Connection.ClosingStaysDisconnected | src/main/java/com/youzan/nsq/client/core/NSQConnectionImpl.java:359-370 | no operation clears `closing`, so after close starts no later history is connected |
| Connection.CurrentRdyAboveExpected | src/main/java/com/youzan/nsq/client/core/NSQConnectionImpl.java:54-79 | `currentRdy` can exceed `expectedRdy`: at construction with a configured RDY of 0, after `onRdy`, and after a decline |
| Connection.OrderStep | src/main/java/com/youzan/nsq/client/core/NSQConnectionImpl.java:87-100 | ordering off: accepted and watermark kept; ordering on: accepted iff not older in both components, and then the watermark becomes the message's; a refusal keeps it; it never decreases |
| Connection.NSQConnection.CheckOrder | src/main/java/com/youzan/nsq/client/core/NSQConnectionImpl.java:87-100 | `checkOrder` returns `OrderStep`'s verdict and changes only the watermark, to `OrderStep`'s |
| Connection.UnorderedAcceptsAll | src/main/java/com/youzan/nsq/client/core/NSQConnectionImpl.java:88-89 | with ordering off every message of any sequence is accepted |
| Connection.AcceptedAboveStart | src/main/java/com/youzan/nsq/client/core/NSQConnectionImpl.java:90-93 | an accepted message is not older than the starting watermark |
| Connection.AcceptedInOrder | src/main/java/com/youzan/nsq/client/core/NSQConnectionImpl.java:90-93 | accepted messages are non-decreasing in both components |
| Connection.InOrderAllAccepted | src/main/java/com/youzan/nsq/client/core/NSQConnectionImpl.java:90-93 | a non-decreasing sequence starting at or above the watermark is accepted entirely |
| Connection.SetCurrentRdy | src/main/java/com/youzan/nsq/client/core/NSQConnectionImpl.java:429-437 | a negative or unchanged count changes nothing; otherwise `lastRdy` takes the old count and `currentRdy` the new one; nothing else changes and the counts stay non-negative |
| Connection.NSQConnection.SetCurrentRdyCount | src/main/java/com/youzan/nsq/client/core/NSQConnectionImpl.java:429-437 | the fields change exactly as `SetCurrentRdy` says |
| Connection.DeclineExpected | src/main/java/com/youzan/nsq/client/core/NSQConnectionImpl.java:439-443 | one less when positive, unchanged at 0 or below, never negative from a non-negative start; wraps to `Integer.MAX_VALUE` at `Integer.MIN_VALUE` |
| Connection.NSQConnection.DeclineExpectedRdy | src/main/java/com/youzan/nsq/client/core/NSQConnectionImpl.java:439-443 | returns and stores `DeclineExpected` of the old value; nothing else changes; the invariant is kept |
| Connection.DeclineTimesFloor | src/main/java/com/youzan/nsq/client/core/NSQConnectionImpl.java:439-443 | n declines from a non-negative count give `max(e - n, 0)` |
| Connection.IncreaseExpected | src/main/java/com/youzan/nsq/client/core/NSQConnectionImpl.java:445-449 | one more while below the configured RDY, unchanged at it, never above it; wraps to `Integer.MIN_VALUE` at `Integer.MAX_VALUE` |
| Connection.NSQConnection.IncreaseExpectedRdy | src/main/java/com/youzan/nsq/client/core/NSQConnectionImpl.java:445-449 | returns and stores `IncreaseExpected` of the old value; nothing else changes; the invariant is kept |
| Connection.IncreaseTimesCeiling | src/main/java/com/youzan/nsq/client/core/NSQConnectionImpl.java:445-449 | n increases from at most the configured RDY give `min(e + n, rdy)` |
| Connection.IncreaseWrapsAtMax | src/main/java/com/youzan/nsq/client/core/NSQConnectionImpl.java:446-447 | with the configured RDY at `Integer.MAX_VALUE`, one more increase yields `Integer.MIN_VALUE` |
| Connection.NSQConnection.Command | src/main/java/com/youzan/nsq/client/core/NSQConnectionImpl.java:149-156 | the command is appended to what the channel has been given and nothing else changes; for a command `MayWrite` permits, the invariant is kept |
| Connection.RdyStep | src/main/java/com/youzan/nsq/client/core/NSQConnectionImpl.java:316-343 | disconnected or backed off: nothing written, nothing changed, callback (current, current); otherwise RDY n is written, and iff the write completes the count is set and the callback gets (n, previous) |
| Connection.NSQConnection.OnRdy | src/main/java/com/youzan/nsq/client/core/NSQConnectionImpl.java:316-343 | the fields and the callback are exactly `RdyStep`'s |
| Connection.BackoffStep | src/main/java/com/youzan/nsq/client/core/NSQConnectionImpl.java:402-427 | disconnected or already backed off: callback (0, 0), nothing changed; otherwise `backoff` is set and RDY 0 written whatever the outcome, and iff the write completes the count becomes 0 and the callback gets (0, previous) |
| Connection.NSQConnection.OnBackoff | src/main/java/com/youzan/nsq/client/core/NSQConnectionImpl.java:402-427 | the fields and the callback are exactly `BackoffStep`'s |
| Connection.ResumeStep | src/main/java/com/youzan/nsq/client/core/NSQConnectionImpl.java:373-399 | only when connected and backed off is `backoff` cleared and RDY `lastRdy` written; iff the write completes the count is set from it and the callback gets (lastRdy, previous); otherwise the callback gets (current, current) |
| Connection.NSQConnection.OnResume | src/main/java/com/youzan/nsq/client/core/NSQConnectionImpl.java:373-399 | the fields and the callback are exactly `ResumeStep`'s |
| Connection.BackoffThenResume | src/main/java/com/youzan/nsq/client/core/NSQConnectionImpl.java:373-427 | a completed back-off then a completed resume restores a positive count, clears `backoff`, and writes RDY 0 then RDY of the old count |
| Connection.BackedOffWithoutZeroCount | src/main/java/com/youzan/nsq/client/core/NSQConnectionImpl.java:316-427 | from any connected state that is not backed off, a back-off whose write does not complete leaves `backoff` set with the count unchanged, and every `onRdy` is then refused |
| Connection.BackedOffIgnoresRdy | src/main/java/com/youzan/nsq/client/core/NSQConnectionImpl.java:324-329 | while backed off any number of `onRdy` calls change nothing |
| Connection.RdyRunLast | src/main/java/com/youzan/nsq/client/core/NSQConnectionImpl.java:316-343 | completed `onRdy` calls with non-negative counts leave the count at the last one and write exactly one RDY per call, with that call's count, in call order |
| Connection.ResponseArrives | src/main/java/com/youzan/nsq/client/core/NSQConnectionImpl.java:212-224 | a response frame is queued only while a request is outstanding and the slot is free, else dropped |
| Connection.NSQConnection.AddResponseFrame | src/main/java/com/youzan/nsq/client/core/NSQConnectionImpl.java:212-224 | the fields change exactly as `ResponseArrives` says; the invariant is kept |
| Connection.ErrorArrives | src/main/java/com/youzan/nsq/client/core/NSQConnectionImpl.java:227-234 | an error frame is queued whenever the slot is free |
| Connection.NSQConnection.AddErrorFrame | src/main/java/com/youzan/nsq/client/core/NSQConnectionImpl.java:227-234 | the fields change exactly as `ErrorArrives` says; the invariant is kept |
| Connection.Exchange | src/main/java/com/youzan/nsq/client/core/NSQConnectionImpl.java:158-185 | a taken request slot times out with nothing changed; otherwise the command is written and the response slot cleared; a frame is got iff one arrives, and only then is the request slot freed; an interrupt gives `WasInterrupted`, a write timeout or no frame gives `TimedOut`; only the slots and the written commands change |
| Connection.NSQConnection.ExchangeCommand | src/main/java/com/youzan/nsq/client/core/NSQConnectionImpl.java:158-185 | the fields and the outcome are exactly `Exchange`'s; for a permitted command the invariant is kept |
| Connection.ExchangeKeepsInv | src/main/java/com/youzan/nsq/client/core/NSQConnectionImpl.java:158-185 | an exchange of any command `MayWrite` permits (anything but CLS, or CLS once closing with none written yet) keeps the invariant |
| Connection.WriteKeepsInv | src/main/java/com/youzan/nsq/client/core/NSQConnectionImpl.java:149-156 | writing a permitted command keeps the invariant, so CLS is written at most once |
| Connection.FailedExchangeBlocksLater | src/main/java/com/youzan/nsq/client/core/NSQConnectionImpl.java:161-183 | after an exchange that gets no frame, every later exchange times out without writing |
| Connection.UnsolicitedResponseDropped | src/main/java/com/youzan/nsq/client/core/NSQConnectionImpl.java:212-224 | a response frame with no request outstanding is dropped and does not answer the next command |
| Connection.RequestStep | src/main/java/com/youzan/nsq/client/core/NSQConnectionImpl.java:188-209 | an inactive channel throws a timeout with nothing changed; otherwise the exchange happens, a got frame is returned, a timeout throws, an interrupt returns null |
| Connection.NSQConnection.CommandAndGetResponse | src/main/java/com/youzan/nsq/client/core/NSQConnectionImpl.java:188-209 | the fields and the result are exactly `RequestStep`'s; for a permitted command the invariant is kept |
| Connection.InitStep | src/main/java/com/youzan/nsq/client/core/NSQConnectionImpl.java:127-146 | a no-op once `identitySent`; otherwise it sets the flag, writes MAGIC and exchanges IDENTIFY; the request and response slots change as in `Exchange` of IDENTIFY; succeeds iff a frame comes back; a busy slot, a write that times out or a poll that times out with the slot free throws a `TimeoutException`, an interrupt an `IllegalStateException`; keeps the invariant |
| Connection.InitResult | src/main/java/com/youzan/nsq/client/core/NSQConnectionImpl.java:127-146 | the handshake succeeds iff a frame came back; a timeout reports a timeout, an interrupt an `IllegalStateException` |
| Connection.NSQConnection.Init | src/main/java/com/youzan/nsq/client/core/NSQConnectionImpl.java:127-146 | the fields and the result are exactly `InitStep`'s |
| Connection.InitTopicStep | src/main/java/com/youzan/nsq/client/core/NSQConnectionImpl.java:116-125 | the handshake's result, and the topic recorded only if it succeeded |
| Connection.NSQConnection.InitWithTopic | src/main/java/com/youzan/nsq/client/core/NSQConnectionImpl.java:116-125 | the fields and the result are exactly `InitTopicStep`'s |
| Connection.InitOnce | src/main/java/com/youzan/nsq/client/core/NSQConnectionImpl.java:130 | a second `_init`, even after a failed one, writes and changes nothing |
| Connection.CloseStep | src/main/java/com/youzan/nsq/client/core/NSQConnectionImpl.java:359-370 | `identitySent` is cleared; `closing` becomes set if either flag was; CLS is written only when `identitySent` was set, `closing` was not and the request slot was free; with `identitySent` and `closing` both set only `identitySent` changes; with `identitySent` set and `closing` not, the request and response slots change as in `Exchange` of CLS; with `identitySent` clear nothing changes |
| Connection.NSQConnection.OnClose | src/main/java/com/youzan/nsq/client/core/NSQConnectionImpl.java:359-370 | the fields change exactly as `CloseStep` says |
| Connection.CloseOnce | src/main/java/com/youzan/nsq/client/core/NSQConnectionImpl.java:359-370 | close, handshake, close again: CLS written at most once and `closing` set |
| Connection.ApplyKeepsInv | src/main/java/com/youzan/nsq/client/core/NSQConnectionImpl.java:37-59 | every operation keeps the RDY counts non-negative, the watermark at or above (-1, -1) and CLS written only once closing |
| Connection.ApplyKeepsExpected | src/main/java/com/youzan/nsq/client/core/NSQConnectionImpl.java:37-59 | with a configured RDY below `Integer.MAX_VALUE`, every operation keeps the expected count in range |
| Connection.RunKeepsInv | src/main/java/com/youzan/nsq/client/core/NSQConnectionImpl.java:37-59 | over any history of the modelled operations the same holds, and CLS is written at most once |
| Lookup.Mask | src/main/java/com/youzan/nsq/client/core/lookup/LookupServiceImpl.java:186 | `x & Integer.MAX_VALUE` lies in [0, 2^31): `x` when not negative, `x + 2^31` otherwise |
| Lookup.MaskLowBits | src/main/java/com/youzan/nsq/client/core/lookup/LookupServiceImpl.java:186 | the mask keeps exactly the low 31 bits of the offset's bit pattern |
| Lookup.SelectIndex | src/main/java/com/youzan/nsq/client/core/lookup/LookupServiceImpl.java:186 | the chosen index is in [0, size) for every offset, negative ones included |
| Lookup.MaskInc | src/main/java/com/youzan/nsq/client/core/lookup/LookupServiceImpl.java:186 | `offset++` moves the masked offset one step, from 2^31 - 1 back to 0 |
| Lookup.MaskAdvance | src/main/java/com/youzan/nsq/client/core/lookup/LookupServiceImpl.java:186 | after k uses the masked offset is `(mask + k) mod 2^31` |
| Lookup.RoundRobin | src/main/java/com/youzan/nsq/client/core/lookup/LookupServiceImpl.java:186 | away from the wrap, the k-th next query uses server `(mask + k) mod size` |
| Lookup.RoundRobinCoversAll | src/main/java/com/youzan/nsq/client/core/lookup/LookupServiceImpl.java:186 | away from the wrap, any `size` consecutive queries reach every server |
| Lookup.RoundRobinNoRepeat | src/main/java/com/youzan/nsq/client/core/lookup/LookupServiceImpl.java:186 | away from the wrap, two different queries among `size` consecutive ones use different servers, so each server is used once |
| Lookup.RoundRobinSkipsAtWrap | src/main/java/com/youzan/nsq/client/core/lookup/LookupServiceImpl.java:186 | with 3 servers, offset `Integer.MAX_VALUE` picks server 1 and the next offset server 0 |
| Lookup.LookupUrlParts | src/main/java/com/youzan/nsq/client/core/lookup/LookupServiceImpl.java:188 | the lookup URL starts with `http://`, names the server and the topic recoverably, and ends with `w` or `r` by access mode |
| Lookup.LookupUrl | src/main/java/com/youzan/nsq/client/core/lookup/LookupServiceImpl.java:188 | `http://<server>/lookup?topic=<topic>&access=w|r`; `LookupUrlParts` recovers each part |
| Lookup.TopicsUrl | src/main/java/com/youzan/nsq/client/core/lookup/LookupServiceImpl.java:222 | the URL is `http://` and the server followed by the path `/topics`, and it names the server it is sent to |
| Lookup.ListLookupUrl | src/main/java/com/youzan/nsq/client/core/lookup/LookupServiceImpl.java:147 | the URL is `http://` and the server followed by the path `/listlookup`, and it names the server it is sent to |
| Lookup.LookupUrlHost | src/main/java/com/youzan/nsq/client/core/lookup/LookupServiceImpl.java:188 | the server is recovered from the URL |
| Lookup.LookupUrlTopic | src/main/java/com/youzan/nsq/client/core/lookup/LookupServiceImpl.java:188 | the topic is recovered from the URL |
| Lookup.ProducerAddresses | src/main/java/com/youzan/nsq/client/core/lookup/LookupServiceImpl.java:193-198 | the set of `broadcast_address:tcp_port` of the records; `ProducerAddressesBound` bounds it |
| Lookup.ProducerAddressesSnoc | src/main/java/com/youzan/nsq/client/core/lookup/LookupServiceImpl.java:193-200 | one more record adds exactly its own address to the set |
| Lookup.ProducerAddressesBound | src/main/java/com/youzan/nsq/client/core/lookup/LookupServiceImpl.java:193-200 | every producer's address is in the result set, which has no more elements than the records |
| Lookup.CollectAddresses | src/main/java/com/youzan/nsq/client/core/lookup/LookupServiceImpl.java:193-198 | the loop builds exactly the set of the records' addresses |
| Lookup.TopicNames | src/main/java/com/youzan/nsq/client/core/lookup/LookupServiceImpl.java:227-232 | the non-null, non-empty names of the reply; `CollectTopics` builds it |
| Lookup.CollectTopics | src/main/java/com/youzan/nsq/client/core/lookup/LookupServiceImpl.java:227-232 | a name is in the result iff it occurs in the reply and is neither null nor empty |
| Lookup.NodeAddress | src/main/java/com/youzan/nsq/client/core/lookup/LookupServiceImpl.java:159-163 | `host + ":" + port`; `NodeAddressRoundTrip` recovers both |
| Lookup.NodeAddressRoundTrip | src/main/java/com/youzan/nsq/client/core/lookup/LookupServiceImpl.java:159-163 | `NodeIP:HttpPort` gives back the host and the port |
| Lookup.CollectNodeAddresses | src/main/java/com/youzan/nsq/client/core/lookup/LookupServiceImpl.java:157-164 | one `NodeIP:HttpPort` string per node, in response order |
| Lookup.MapPieces | src/main/java/com/youzan/nsq/client/core/lookup/LookupServiceImpl.java:87-91 | one cleaned entry per piece |
| Lookup.MapPiecesAt | src/main/java/com/youzan/nsq/client/core/lookup/LookupServiceImpl.java:87-91 | entry k is piece k cleaned |
| Lookup.Cleaned | src/main/java/com/youzan/nsq/client/core/lookup/LookupServiceImpl.java:87-91 | the pieces cleaned, as many as there are pieces |
| Lookup.Clean | src/main/java/com/youzan/nsq/client/core/lookup/LookupServiceImpl.java:88-89 | `trim()` then `replace(" ", "")`: a cleaned piece has no space, and no comma when the piece had none |
| Lookup.CleanedChars | src/main/java/com/youzan/nsq/client/core/lookup/LookupServiceImpl.java:83-96 | any permutation of the cleaned comma-free pieces contains no space and no comma |
| Lookup.ParseAddresses | src/main/java/com/youzan/nsq/client/core/lookup/LookupServiceImpl.java:83-96 | the sorted cleaned pieces of `split(",")`: one per piece, ascending, a permutation of the cleaned pieces, none with a space or a comma |
| Lookup.CommasOnly | src/main/java/com/youzan/nsq/client/core/lookup/LookupServiceImpl.java:83 | `",,"` splits into no pieces |
| Lookup.LookupService.constructor | src/main/java/com/youzan/nsq/client/core/lookup/LookupServiceImpl.java:53-60 | the list is stored and the offset starts at the random draw |
| Lookup.LookupService.FromList | src/main/java/com/youzan/nsq/client/core/lookup/LookupServiceImpl.java:66-73 | fails with `IllegalArgumentException` iff the list is null or empty; otherwise stores it sorted |
| Lookup.LookupService.FromString | src/main/java/com/youzan/nsq/client/core/lookup/LookupServiceImpl.java:79-98 | fails with `IllegalArgumentException` iff the string is null or empty; otherwise stores its parsed, sorted pieces |
| Lookup.LookupService.NextServer | src/main/java/com/youzan/nsq/client/core/lookup/LookupServiceImpl.java:186-187 | the offset always advances by one `int` increment; the server at `SelectIndex` of the old offset, or none iff the list is empty |
| Lookup.LookupService.Lookup | src/main/java/com/youzan/nsq/client/core/lookup/LookupServiceImpl.java:177-205 | a null or empty topic fails before the offset moves; otherwise the offset advances, an empty list fails with `ArithmeticException`, and the URL is that of the chosen server, with the producers' address set as the result or `NSQLookupException` if the query fails |
| Lookup.LookupService.GetAllTopics | src/main/java/com/youzan/nsq/client/core/lookup/LookupServiceImpl.java:215-239 | the offset advances; an empty list fails with `ArithmeticException`; otherwise the chosen server's `/topics` URL and the non-empty names, or `NSQLookupException` |
| Lookup.LookupService.NewLookupServers | src/main/java/com/youzan/nsq/client/core/lookup/LookupServiceImpl.java:141-169 | an empty list: nothing changes; otherwise the offset advances, the chosen server's `/listlookup` URL is used, and a non-empty node list replaces the addresses in order, unsorted; the list never becomes empty |

## Left out

- Networking, HTTP and JSON.
  - Netty's `Channel` (`writeAndFlush`, `isActive`, `close`) and the Jackson parsing of replies are outside the model.
  - Channel activity, write completion and the parsed reply are inputs.
  - A failed HTTP query or malformed reply is represented by an absent reply.
- Concurrency, locks and timing.
  - The read–write lock, `synchronized` and the atomicity of the `Atomic*` fields are not modelled; histories are sequential.
  - Timeouts are not computed from the clock. The `Wait` input says whether the write timed out, the thread was interrupted, or a frame arrived in time.
  - A full queue's `offer` is modelled as timing out immediately, because no other thread frees a slot in a sequential history.
- The completion listeners of `onRdy`, `onBackoff` and `onResume`.
  - Each listener runs right after its write.
  - Calls interleaved between a write and its completion are not modelled.
  - The `IRdyCallback` invocation is returned as an optional pair.
- Connection.Exchange: an interrupt is modelled only while the command waits for its answer, not during the `offer` that takes the request slot.
- Connection.RunKeepsInv: commands from outside callers of `command` and `commandAndGetResponse` appear in a history as other commands, never MAGIC, IDENTIFY, RDY or CLS. A CLS sent from outside before close would break the at-most-once CLS invariant, so the class methods `Command`, `ExchangeCommand` and `CommandAndGetResponse` require `MayWrite` instead.
- Connection.RequestStep: the `_close()` and re-interrupt that `commandAndGetResponse` performs after an interrupt are not modelled.
- Connection.NSQConnection.AddResponseFrame: the `close()` and re-interrupt after an interrupted `offer` are not modelled.
- Connection.NSQConnection.AddErrorFrame: the re-interrupt after an interrupted `offer` is not modelled.
- Connection.NSQConnection.Command: the null-command case, which returns null, is not modelled.
- `disconnect()`, `_close()` and the connection manager's `backoff` are not part of this model (they act on the channel and objects defined elsewhere).
- `Rdy.BACK_OFF` is taken to be RDY 0.
- `Topic.newInstacne(topic, true)` is not part of this model; `init(topic)` stores the topic it is given.
- Getters, `compareTo`, `equals`, `hashCode`, `toString` and logging are left out.
- The one-argument `lookup(topic)`, which is `lookup(topic, true)`, has no separate member.
- `close()`, `keepLookupServers` and the scheduler are left out.
  - The random draw `_r.nextInt(100)` is a parameter in [0, 100).
  - The refresh is a method called explicitly.
- Lookup.LookupService.FromList: `Collections.sort` sorts the caller's own list in place and `setAddresses` clears any previous list. The model stores a sorted copy and does not model that aliasing.
- Lookup.LookupService.NewLookupServers: the `IOException` a failed query throws out of the method is modelled as leaving the list unchanged, which is what the scheduler that catches it observes.
- String order and result types.
  - Java's `compareTo` compares UTF-16 code units, while the model compares Unicode scalar values; the two orders differ only for characters outside the Basic Multilingual Plane.
  - `TreeSet`/`HashSet` iteration order is not modelled; results are mathematical sets.
- Mpub.MpubCommand.GetBytes: requires ASCII topic text and a total length that fits an `int`. The Java code's behaviour for larger lists is an overflow of `bodySize` and the buffer size, which is not modelled. `NSQCommand.DEFAULT_CHARSET` is not part of this model.
- `getBody()`: the message list is part of an immutable value, so "encoding does not modify it" holds by construction and has no separate lemma.
