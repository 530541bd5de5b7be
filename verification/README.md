# Proofs about the algorithms of the Go 1.21 standard library

A model in Dafny of the parts of the Go 1.21 tree whose correctness is a
theorem: exact floating-point arithmetic on bit patterns, two concurrent
protocols, three printers and the parsers that undo them, the streaming buffers,
and substring search.  `dafny verify dfyconfig.toml` checks everything.

## What is modelled

**Floating point** (`Words`, `Float64`, `Fma`, `Sqrt`, `Ieee`, `Scaling`, `Mod`,
`Round`).  A double is its 64-bit pattern; its exact value is a whole number of
units of 2^-1074, so every statement is about integers.  Machine words wrap
explicitly, and the bit operations are functions on numbers.  *Correctly rounded*
means: no other encoding is nearer to the exact value, and in a tie the even
encoding is taken (section 4.3.1 of IEEE 754-2019).  `Sqrt` is proved correctly
rounded for all finite operands and `Fma` for all finite ones but zero, `Mod` and
`Remainder` exact, `Round` and `RoundToEven` nearest, with the two tie rules.  Where
the code itself uses the host's arithmetic (`mod`, `remainder`, `ldexp`, `normalize`,
and `fma` when an operand is zero), that arithmetic is the correctly rounded one of
module `Ieee`.

**Protocols** (`Pipe`, `Context`, `ContextTree`, `ContextSteps`).  The synchronous pipe is a system
of interleaved steps, one for each channel or mutex operation and each load or
store of an error, for any number of concurrent calls.  The cancellation tree is a
table of contexts in creation order; its steps are whole library calls, with
registration in two steps so that a cancel can come in between.  An invariant
holds after every step and the claims about whole runs follow from it.  What a cancel
reaches is stated on the way up from a context alone: a context above it, with no
WithoutCancel between.  The
methods of `ContextTree` change the table in place, take the mutexes the code
takes, and are proved to make exactly the steps of `Context`.  That a cancel is one
step is an assumption of these two modules: the code holds only the mutexes of the
contexts it is inside.  `ContextSteps` drops it.  There any number of cancels are in
progress at once, each marks a context and then visits the children one at a time,
and everything else happens in between; outcomes are still set once, all that a
cancel is to reach is done when it returns, and every call can return.

**Printers and parsers** (`MediaType`, `Parameters`, `EncodedWord`, `Headers`,
`Escape`, `Utf8`).  Strings are sequences of bytes.  The loops with builders, cursors
and buffers are methods; each is proved equal to a recursive function on sequences, and
the round trips are proved about those functions, for all inputs.  What the functions
mean is said apart from them, by the parts a text is made of: every text can be taken
apart, and however it is, its parts tell what it is read as (`Parameters` for media
types, `Headers` for encoded words, the named references in `Escape`).

**Streams** (`Stream`, `ReadRune`, `Scanner`, `Reader`, `Writer`, `Buffer`,
`Slices`).  A source or a sink follows a script about which nothing is assumed, so
each result holds for every way of cutting the data into reads, for empty reads,
for data that comes with an error and for short writes.  The classes have the
fields of the originals and update them in place.

**Search** (`Search`).  The two searches of package bytes with their hashes modulo
2^32.

Findings that the proofs state, where the code does something a reader might not
expect:

- `FMA` with z = +0 rounds a negative product that underflows to +0 instead of -0;
  this is the one case in which a zero operand spoils the single rounding
  (`Fma.ZeroOperandRoundsOnce`, `Fma.SignIsLost`).
- `Ldexp` adds exponents in a 64-bit int that may wrap; it is correctly rounded
  exactly when the sum fits (`Scaling.Ldexp`), and one half times 2^-2^63 comes out as
  infinity (`Scaling.HalfWraps`).
- Once a parent's cancel has closed its channel, a child that it has not come to can
  be cancelled with a cause of its own.  The earliest call decides every outcome if no
  cancel is called while another of a context above or below is in progress
  (`ContextSteps.EarliestDecides`); a cancel called otherwise can decide the outcome of
  anything below it that is not done yet, whoever was asked first
  (`ContextSteps.LateCallWins`, and as a run `ContextSteps.EarliestMayLose`).
- `FormatMediaType` and `ParseMediaType` undo each other exactly on the maps whose
  names are lower-case tokens without a star (`MediaType.RoundTrip`).
- Text that needs no encoding is not protected: it comes back exactly if no part of
  it reads as an encoded word (`EncodedWord.PlainThenDecode`,
  `EncodedWord.PlainMayDecode`).
- `fmt`'s rune reader loses bytes in one case only, another error than EOF in the
  middle of a rune (`ReadRune.BytesAreLost`), and a rune read again after `UnreadRune`
  has another size than the first time exactly if it was a bad byte
  (`ReadRune.SizeDiffers`, `ReadRune.BadByteGrows`).
- `bufio`'s `Discard` does not report an error that came with the last buffered byte:
  it reads on (`Reader.DiscardPassesError`).  `ReadBytes` takes a source's own
  `ErrBufferFull` for a report of its own full buffer and reads on too; it stops where
  every other read does exactly if that is not at such an error
  (`Reader.LinesAsUsual`, `Reader.LinePassesError`).
- `Buffer.Grow` does not forget the last read, so `UnreadByte` may succeed without
  putting anything back: it puts the byte back exactly if there was room behind the
  content (`Buffer.GrowThenUnreadByte`, `Buffer.GrowLosesByte`).  The comment on
  `UnreadByte` promises an error after a read that returned an error, but after
  `ReadBytes` at the end of the buffer it succeeds (`Buffer.EndThenUnreadByte`); the
  model follows the code.
- An encoded word that is not complete ends the decoding of a header: all that follows the
  first such `=?` stays as it is, other encoded words included
  (`Headers.HeaderHasMeaning`, `Headers.UnfinishedWordHides`).
- A numeric HTML reference is read in 32 bits and wraps, so that `&#4294967361;` is
  read as A (`Escape.NumericReference`, `Escape.NumbersWrap`).  It is read exactly if it
  has more than three bytes: `&#1` with no semicolon stays, and `&#x;` stands for U+FFFD
  although it has no digits (`Escape.NoDigits`).

## Model

| member | source | states |
|---|---|---|
| Fma.FMA | src/math/fma.go:95-175 | for finite non-zero operands the result is the exact x*y+z rounded once, ties to even, with subnormal results, overflow to infinity and +0 on exact cancellation; an infinite z comes back |
| Fma.ZeroOperandRoundsOnce | src/math/fma.go:98-101 | with a zero operand the product and the sum round at most once together, on a host that rounds each, if and only if no negative product underflows against z = +0; an exact zero has the sign of a sum of zeros |
| Fma.SignIsLost | src/math/fma.go:98-101 | the operands that show the exception |
| Fma.ShrCompress | src/math/fma.go:43-63 | every branch shifts right and keeps the lost bits as one sticky bit |
| Fma.StickyRoundsToOdd | src/math/fma.go:39-63 | a sticky shift of a value rounded to odd is again rounded to odd, so the sticky bit never changes a later rounding |
| Fma.CombineRoundedToOdd | src/math/fma.go:141-160 | adding an exact even operand keeps rounding to odd, even through cancellation |
| Fma.ShlCorrect | src/math/fma.go:27-31 | the two-word left shift is multiplication modulo 2^128 |
| Fma.ShrCorrect | src/math/fma.go:33-37 | the two-word right shift is division by a power of two |
| Fma.LeadingZeros128Normalises | src/math/fma.go:65-71 | shifting by the count brings the top bit to the top |
| Fma.Split | src/math/fma.go:73-91 | sign, exponent and normalised significand have the value of the encoding, subnormals included |
| Fma.Product | src/math/fma.go:114-128 | the normalised two-word product is the exact product |
| Fma.AddSignificands | src/math/fma.go:145-150 | the sum of aligned significands is the exact sum rounded to odd |
| Fma.SubSignificands | src/math/fma.go:151-160 | the same for a difference, after renormalising |
| Fma.CancelExactly | src/math/fma.go:135-138 | the special case is taken only when the exact sum is zero |
| Fma.SubnormalShift | src/math/fma.go:167-171 | the shift into the subnormal range keeps rounding to odd |
| Fma.RoundAndPack | src/math/fma.go:162-174 | the rounding tail gives the correctly rounded encoding, carries into the exponent and overflow included |
| Sqrt.SquareRoot | src/math/sqrt.go:100-145 | for every positive finite argument the result is nearer to the root than any other encoding; special cases as documented |
| Sqrt.RootDigits | src/math/sqrt.go:125-138 | the digit loop gives the integer root of the scaled significand, doubled, and a remainder word that is zero exactly for an exact root; no step overflows 64 bits |
| Sqrt.DigitStep | src/math/sqrt.go:129-138 | one turn keeps s = 2q and ties ix to the remainder N - q^2 |
| Sqrt.RoundDigits | src/math/sqrt.go:139-142 | the extra bit rounds to nearest; a tie is impossible |
| Sqrt.RootRange | src/math/sqrt.go:139-144 | the final rounding never carries out of the significand |
| Scaling.Normalize | src/math/bits.go:54-62 | a normal number and an exponent with the same value |
| Scaling.Frexp | src/math/frexp.go:24-39 | a fraction in [1/2, 1) and an exponent with the exact value |
| Scaling.Ldexp | src/math/ldexp.go:22-51 | the scaled value is correctly rounded if and only if the exponent arithmetic fits a 64-bit int; when it wraps, what is too small gives infinity and what is too large gives zero |
| Scaling.HalfWraps | src/math/ldexp.go:30-42 | an operand whose exponent wraps: infinity where zero is nearest |
| Ieee.DifferenceIsExact | src/math/mod.go:46 | the difference of values within a factor of two of each other is representable |
| Mod.ReduceOnce | src/math/mod.go:41-47 | one turn subtracts an exact multiple of y and more than halves r |
| Mod.FloatMod | src/math/mod.go:29-52 | the result is exactly the remainder of the magnitudes with the sign of x |
| Mod.ReduceToHalf | src/math/remainder.go:75-90 | the two conditional subtractions, in both forms, give the remainder nearest to zero |
| Mod.NearestQuotientIsNearest | src/math/remainder.go:72-90 | the quotient they settle on is nearest to x/y, even in a tie |
| Mod.Remainder | src/math/remainder.go:45-95 | the result is exactly x - n*y for the integer n nearest to x/y, ties to even; a zero has the sign of x |
| Round.RoundAway | src/math/floor.go:83-112 | the nearest integer, ties away from zero, for every finite argument |
| Round.RoundToEven | src/math/floor.go:121-151 | the nearest integer, ties to even, for every finite argument |
| Round.PackedRounding | src/math/floor.go:106-109 | adding into the packed word and clearing the fraction rounds the value, carries into the exponent included |
| Round.LargeIsInteger | src/math/floor.go:101-105 | values with larger exponents are integers |
| Pipe.StepKeeps | src/io/pipe.go:50-123 | every step of every call keeps the invariant |
| Pipe.BytesArriveInOrder | src/io/pipe.go:50-96 | in every interleaving the bytes received, in handshake order, are the prefixes that writes counted, in wrMu order, and at most one handshake in flight; each copy belongs to one read that got it, and each write that counted bytes is in the order once |
| Pipe.WritesAreContiguous | src/io/pipe.go:76-96 | in every interleaving what readers received is what earlier writes counted, then a write's counted bytes in one piece, then the rest |
| Pipe.WriteResults | src/io/pipe.go:76-123 | a write counts a prefix of its data; a non-empty one has no error exactly when it counted all; a failed one reports ErrClosedPipe with the write side closed, or else what a close of the read side was given |
| Pipe.ReadResults | src/io/pipe.go:50-114 | a failed read has no bytes and reports ErrClosedPipe with the read side closed, or else what a close of the write side was given; the stored writer's error if the read side is open |
| Pipe.StoredErrorsAreGiven | src/io/pipe.go:67-105 | in every run a stored error is what a close of that side was given, EOF for the writer and ErrClosedPipe for the reader if nothing |
| Pipe.ReadFailsWith | src/io/pipe.go:107-114 | from the first load on a read fails with ErrClosedPipe if its own side had an error then, and if not with the writer's, which was there |
| Pipe.WriteFailsWith | src/io/pipe.go:116-123 | the same for a write, which keeps what it counted |
| Pipe.LateCallsFail | src/io/pipe.go:50-105 | once done is closed a new read or write moves no bytes and fails, with ErrClosedPipe if its own side had been closed |
| Pipe.HandshakeMoves | src/io/pipe.go:57-91 | both sides of a handshake count the same bytes: as much of what the write has left as the reader has room for |
| Pipe.ErrorsNeverChange | src/io/pipe.go:15-33 | a stored error is never overwritten and done stays closed |
| Pipe.DoneClosedOnce | src/io/pipe.go:67-74 | the step that closes done runs on an open pipe only |
| Pipe.NeverStuck | src/io/pipe.go:50-105 | once done is closed some call can always move |
| Pipe.StepProgresses | src/io/pipe.go:50-123 | every step of existing calls uses up rank |
| Pipe.EveryCallFinishes | src/io/pipe.go:50-105 | after a close some continuation finishes every waiting call |
| Pipe.RunsAreBounded | src/io/pipe.go:50-123 | no schedule of the existing calls runs longer than their rank |
| Context.StepKeeps | src/context/context.go:423-563 | every library step keeps the invariant of the cancellation tree |
| Context.OutcomeIsEarliest | src/context/context.go:519-563 | in every run of whole calls, none begun inside another, a context is done exactly if it or one above it has been cancelled, with err and cause of the first such cancel, and its done channel is closed exactly then |
| Context.CancelReachesDescendants | src/context/context.go:551-555 | a cancel reaches exactly the context and those below it that no WithoutCancel cuts off; the live ones get its error and the cause given, or the error for none |
| Context.ChainIsAbove | src/context/context.go:295-325 | the contexts whose cancel reaches a context are those on the way up from it, value contexts or not, up to the first WithoutCancel |
| Context.NearestIsFirst | src/context/context.go:776-816 | the cancellable context that is looked up is the first on the way up, with nothing but value contexts before it |
| Context.OnceIsSpentOnce | src/context/context.go:239-276 | the once of an after-func is spent at most once, by its own stop, which keeps the function from running, or by whatever else cancels it, which starts the function |
| Context.AfterFuncRuns | src/context/context.go:268-276 | in every run an after-func's context is done exactly if its function was started or its stop came first |
| Context.CancelUnregisters | src/context/context.go:558-562 | a live context that is cancelled with removal is no child of its owner afterwards |
| Context.TimerStarts | src/context/context.go:641-650 | a timer is started exactly on a live context |
| Context.OutcomeNeverChanges | src/context/context.go:532-549 | err, cause and a closed channel are never changed again |
| Context.ReachesExactlyBelow | src/context/context.go:446-463 | through the registered children a cancel reaches a live context if and only if it starts at the context or above it |
| Context.LookupIsNearest | src/context/context.go:776-816 | a value lookup finds the nearest context on the way up that carries the key, past any WithoutCancel, or there is none |
| Context.ValuesNeverChange | src/context/context.go:715-735 | no step changes what an existing context carries; a new value hides only its own key |
| ContextTree.Contexts.ValueOf | src/context/context.go:776-816 | the loop up the chain is that lookup |
| ContextTree.NoCircleOfWaits | src/context/context.go:447-465 | goroutines that hold and want mutexes as the methods acquire them never wait in a circle |
| ContextTree.Contexts.CancelCore | src/context/context.go:530-557 | the recursive cancel, under its mutexes, cancels exactly the live subtree, and terminates |
| ContextTree.Contexts.Cancel | src/context/context.go:519-563 | a top-level cancel makes exactly the cancel step, removal from the owner included unless a plain context was cancelled before, with every mutex acquired in order; what is live and below, by the way up, has the error and cause, a closed channel and its after-func started, and nothing else is cancelled |
| ContextTree.Contexts.MarkCancelled | src/context/context.go:538-549 | err, cause and the closed channel are set, and the channel has not been closed before |
| ContextTree.Contexts.RemoveChild | src/context/context.go:328-346 | the context leaves its owner's children, found up the chain |
| ContextTree.Contexts.FindCancelCtx | src/context/context.go:295-325 | the loop up the chain finds the first cancellable context with nothing but value contexts before it, or none past a WithoutCancel |
| ContextTree.Contexts.MakeDone | src/context/context.go:386-408 | a missing done channel is made once |
| ContextTree.Contexts.Begin | src/context/context.go:423-442 | a context whose parent is done is cancelled on the spot with the parent's error and cause |
| ContextTree.Contexts.Register | src/context/context.go:446-466 | registration under the parent's mutex, or a cancel that came in between |
| ContextTree.Contexts.Stop | src/context/context.go:246-255 | stop tells whether it kept the function from running |
| ContextTree.Contexts.StartTimer | src/context/context.go:641-650 | a timer is started only on a live context |
| ContextSteps.StepKeeps | src/context/context.go:423-563 | every step of every cancel in progress, and every creation, registration and removal between them, keeps the invariant, and no step changes an outcome |
| ContextSteps.ReturnedMeansDead | src/context/context.go:551-563 | in every interleaving, when a cancel has returned, every context in use below its target is done, whoever cancelled it and whenever it was created |
| ContextSteps.OutcomeIsAsked | src/context/context.go:538-549 | in every interleaving a done context has the error and cause of one cancel of itself or of a context above it |
| ContextSteps.OutcomesStay | src/context/context.go:532-549 | in every interleaving err, cause and a closed channel stay as they were set |
| ContextSteps.ClosesOnce | src/context/context.go:541-549 | the step that closes a channel finds it open or not made |
| ContextSteps.LoopIsDone | src/context/context.go:551-557 | when the loop over the children ends, all below the context is done, what other calls were cancelling included |
| ContextSteps.SomeCallMoves | src/context/context.go:530-557 | while a cancel has not returned, one of the cancels in progress can take a step |
| ContextSteps.EveryCallReturns | src/context/context.go:530-557 | from every reachable state the cancels in progress can all return by their own steps, however their subtrees overlap |
| ContextSteps.EarliestDecides | src/context/context.go:530-557 | in every interleaving in which no cancel is called while another that can meet it is in progress, a done context has the outcome of the first cancel of itself or of one above it, and when all have returned the others have not been asked |
| ContextSteps.LateCallWins | src/context/context.go:541-555 | from every reachable state a cancel called now can decide the outcome of any context below it that is not done, nor anything between; then the earliest call decides if and only if none was to reach the context, or with the same outcome |
| ContextSteps.EarliestMayLose | src/context/context.go:541-555 | a run in which a child gets the cause of the later call |
| MediaType.RoundTrip | src/mime/mediatype.go:14-24 | parsing a formatted type gives the lower-case type and exactly the map, if and only if the type is valid and the names are lower-case tokens without a star |
| MediaType.FormatThenParse | src/mime/mediatype.go:139-233 | the direction that needs no condition on the values: arbitrary bytes come back, with white space after them or one semicolon with white space round it |
| MediaType.ParamRead | src/mime/mediatype.go:321-347 | one printed parameter is read back whole, up to white space or the next semicolon |
| MediaType.FormatRefuses | src/mime/mediatype.go:20-54 | nothing is printed just for what is no type or has a name that is no token |
| MediaType.ParsedKeys | src/mime/mediatype.go:130-137 | every name in a parsed map is lower-case and has no star |
| MediaType.PercentRoundTrip | src/mime/mediatype.go:58-80 | decoding an encoded value gives the value, and the encoding is a token without a tick |
| MediaType.EscapeRoundTrip | src/mime/mediatype.go:87-99 | a quoted string is read back, and what follows it is left |
| MediaType.PartsStitch | src/mime/mediatype.go:201-230 | a value split over numbered parts, plain and encoded in any mix, is put together in order |
| MediaType.PartsDiffer | src/mime/mediatype.go:205-212 | part names differ, so the open loop over part numbers ends |
| MediaType.ListsOnce | src/mime/mediatype.go:37-41 | the sorted list of names is unique, so the text depends on the map alone |
| MediaType.FormatMediaType | src/mime/mediatype.go:20-101 | the writer with its builder and its sorted names gives the specified text |
| MediaType.WriteEncoded | src/mime/mediatype.go:61-80 | the copying loop with offset and index is the percent encoding |
| MediaType.WriteQuoted | src/mime/mediatype.go:87-99 | the copying loop with offset and index is the escaping |
| MediaType.ParseMediaType | src/mime/mediatype.go:139-233 | the parsing loop gives the specified outcome, with its kinds of failure; what it is by the parts of the text is `Parameters.MediaTypeParses` |
| MediaType.StitchContinuations | src/mime/mediatype.go:191-230 | whatever order the map is walked in, the result is the same |
| MediaType.ConsumeValue | src/mime/mediatype.go:282-319 | the loop over a quoted string, with its rule for needless backslashes |
| MediaType.PercentHexUnescape | src/mime/mediatype.go:349-386 | two passes, one buffer of exactly the right size, and the decoded text or an error |
| Parameters.ParamsHaveMeaning | src/mime/mediatype.go:162-189 | parameters fail with a duplicate name just if one name has two values, and if not with an invalid parameter just if what comes after them is neither blank nor a lone semicolon; if neither, exactly they are recorded |
| Parameters.ParamsExist | src/mime/mediatype.go:321-347 | every text is parameters and then something blank, or something that is not and begins no parameter |
| Parameters.ParamIsRead | src/mime/mediatype.go:321-347 | a semicolon, a name, an equals sign and a value, with white space wherever it may be, are read whole |
| Parameters.ReadIsParam | src/mime/mediatype.go:321-347 | and what is read as a parameter is that |
| Parameters.UnitsAreRead | src/mime/mediatype.go:290-318 | a quoted string stands for its bytes, special ones after a backslash, and a backslash before any other for itself |
| Parameters.QuotedHasUnits | src/mime/mediatype.go:290-318 | and every quoted string that is read is made of those |
| Parameters.MediaTypeParses | src/mime/mediatype.go:139-233 | how parsing ends by the parts of the text: the lower-case type and the parameters, or which error with the type or without |
| Parameters.NoStars | src/mime/mediatype.go:178-188 | without stars the map has exactly the given names and values |
| Parameters.NoTypeParses | src/mime/mediatype.go:139-146 | a text with no type before its first semicolon is refused with the error of what stands there |
| Parameters.TypeErrors | src/mime/mediatype.go:103-123 | which of its four errors a type gives, or none |
| Parameters.PercentIsRead | src/mime/mediatype.go:349-386 | a percent-encoded text is decoded byte by byte, with escapes in either case |
| Parameters.PercentHasUnits | src/mime/mediatype.go:349-386 | and no other text is |
| Parameters.EncodedValueIsRead | src/mime/mediatype.go:235-257 | an encoded value is read if its charset is UTF-8 or ASCII in any case, whatever its language |
| Utf8.EncodeThenDecode | src/unicode/utf8/utf8.go:342-370 | every code point is read back from its encoding, whatever follows |
| Utf8.DecodeThenEncode | src/unicode/utf8/utf8.go:151-190 | what decodes as a rune is that rune's one encoding, unless it is a bad byte |
| Utf8.FullRuneMeansDecided | src/unicode/utf8/utf8.go:104-121 | FullRune holds exactly when no further input can change how the rune is read |
| Utf8.UnfinishedRune | src/unicode/utf8/utf8.go:104-121 | an unfinished rune is a lead byte and continuation bytes, at most three in all |
| Utf8.NoScalarEncodes | src/unicode/utf8/utf8.go:342-370 | what is no code point is written as U+FFFD |
| EncodedWord.EncodeThenDecode | src/mime/encodedword.go:230-302 | reading the words written for s gives s, for every s that needs encoding |
| EncodedWord.WordsDecode | src/mime/encodedword.go:244-302 | successive words are decoded and the spaces between them vanish |
| EncodedWord.WrittenWordsFit | src/mime/encodedword.go:70-76 | every written word has at most 75 bytes |
| EncodedWord.ChunksKeepRunes | src/mime/encodedword.go:120-140 | cutting into words divides no multi-byte character |
| EncodedWord.ChunksCover | src/mime/encodedword.go:120-140 | the words hold all of s in order |
| EncodedWord.ChunksAreFull | src/mime/encodedword.go:120-140 | no word is ended while the next character would still go into it |
| EncodedWord.WrittenAsItIs | src/mime/encodedword.go:35-50 | text is written as it is just if all of it is printable ASCII, spaces and tabs |
| EncodedWord.EncodedIsPlain | src/mime/encodedword.go:35-68 | what is written never needs encoding itself |
| EncodedWord.PlainMayDecode | src/mime/encodedword.go:35-40 | there is plain text that does not come back |
| EncodedWord.PlainThenDecode | src/mime/encodedword.go:35-40 | plain text comes back if and only if no part of it reads as an encoded word, whatever decoders are plugged in that make no more plain bytes than they get |
| EncodedWord.DecodingShrinks | src/mime/encodedword.go:244-302 | a header that decodes to plain text is no shorter than it, and longer if a word in it is decoded |
| EncodedWord.QRoundTrip | src/mime/encodedword.go:362-388 | Q-decoding Q-encoded bytes gives the bytes |
| EncodedWord.EncodeHeader | src/mime/encodedword.go:35-68 | text that needs no encoding stays, other text is put into words |
| EncodedWord.QEncode | src/mime/encodedword.go:114-141 | the splitting loop writes the specified words |
| EncodedWord.WriteQString | src/mime/encodedword.go:144-157 | the writing loop is the Q encoding |
| EncodedWord.QDecodeText | src/mime/encodedword.go:362-388 | the decoding loop with its buffer and look-ahead gives the text or an error |
| EncodedWord.DecodeHeaderText | src/mime/encodedword.go:230-345 | the cursor loop gives the specified text; what that is by the parts of the header is `Headers.HeaderHasMeaning` |
| Headers.HeaderHasMeaning | src/mime/encodedword.go:230-302 | for whatever parts a header is made of: words are replaced by their text, what stands between two of them is dropped if it is white space and kept if not, and the rest stays; it fails just if the reader of another charset refuses |
| Headers.HeaderHasParts | src/mime/encodedword.go:244-302 | every header is made of such parts: words, complete words that cannot be read, and an end without a complete word |
| Headers.TextBetweenWords | src/mime/encodedword.go:283-287 | for two words: what stands before, between and after them stays, but white space between them |
| Headers.UnfinishedWordHides | src/mime/encodedword.go:245-271 | an `=?` that opens no complete word hides the words after it |
| Headers.ConvertGivesText | src/mime/encodedword.go:314-345 | the text of a word: its bytes for UTF-8, a character each for ISO-8859-1, U+FFFD for those that are not ASCII in ASCII, with charset names in any case |
| Headers.EncodedRunes | src/unicode/utf8/utf8.go:342-370 | the encoding of characters is read as them |
| Headers.UnitsAreRead | src/mime/encodedword.go:362-388 | Q text stands for its bytes: an underscore, an escape in either case, or a byte that stands for itself |
| Headers.TextHasUnits | src/mime/encodedword.go:362-388 | and Q text that is read is made of those |
| Escape.EscapeThenUnescape | src/html/escape.go:166-212 | unescaping what was escaped gives the string back, for every byte string |
| Escape.UnescapeString | src/html/escape.go:187-214 | the in-place loop computes what unescaping means; the lemmas below say what that is for each kind of reference |
| Escape.UnescapeNext | src/html/escape.go:197-212 | one turn keeps dst <= src and the unread input intact |
| Escape.UnescapeEntity | src/html/escape.go:56-164 | a reference is replaced in place; nothing behind it is overwritten |
| Escape.UnescapeNamed | src/html/escape.go:122-164 | named references are replaced in place as `NameInTable` and `NameNotInTable` say |
| Escape.UnescapeNumeric | src/html/escape.go:69-121 | numeric references in place, with 32-bit wrap-around |
| Escape.NameInTable | src/html/escape.go:123-148 | a maximal name in a table is replaced by its rune, or by its two runes in that order |
| Escape.NameNotInTable | src/html/escape.go:149-164 | a name in neither is replaced by the entity that is its longest proper prefix of two to six bytes, and the rest of the name stays; with no such prefix all of it stays |
| Escape.NameIsThere | src/html/escape.go:126-139 | after every ampersand there is a maximal name, perhaps an empty one |
| Escape.AmpersandStays | src/html/escape.go:139-164 | an ampersand with an empty name stays |
| Escape.UnescapePlain | src/html/escape.go:187-212 | text without an ampersand stays |
| Escape.EntityFits | src/html/escape.go:53-55 | over narrow tables no text is wider than its reference |
| Escape.WideOverruns | src/html/entity.go:2170-2172 | over a wider entry one is |
| Escape.NumericReference | src/html/escape.go:69-121 | what a decimal or hexadecimal reference stands for, whatever its digits and whatever follows: its number in 32 bits, with the Windows-1252 code points replaced and what is no code point read as U+FFFD; and which references stay as they are |
| Escape.DecimalReference | src/html/escape.go:69-121 | so a number printed in decimal is read, for every number |
| Escape.CodePointIsRead | src/html/escape.go:110-121 | a code point is what its reference stands for if and only if it is neither zero nor one of those replaced |
| Escape.NumbersWrap | src/html/escape.go:84-101 | a number above 2^32 that is read as the letter A |
| Escape.NoDigits | src/html/escape.go:75-113 | a reference without digits is read, as U+FFFD, if and only if it is hexadecimal with a semicolon |
| Escape.BadCodePoint | src/html/escape.go:110-121 | zero and what is no code point are read as U+FFFD |
| Escape.EscapedIsSafe | src/html/escape.go:166-180 | what is escaped has no angle bracket and no quote |
| Stream.Source.Read | src/io/io.go:55-88 | an arbitrary source: any count, any error, empty reads |
| Stream.DealConserves | src/io/io.go:55-88 | what a call gives and what is left make up what was to come |
| Stream.Sink.Write | src/io/io.go:90-101 | an arbitrary sink: some prefix, any error |
| Stream.FeedStep | src/io/io.go:55-88 | however a source's data is cut by the room of the calls, the bytes and the error at which a reader gives up are the same |
| ReadRune.ReadToEnd | src/fmt/scan.go:328-367 | reading a source to its end gives the UTF-8 decoding of all its bytes, however it cuts them, and then EOF |
| ReadRune.ReadToFailure | src/fmt/scan.go:328-367 | reading again and again gives the runes up to the first failure, and that failure |
| ReadRune.EventsAreBytes | src/fmt/scan.go:312-326 | a source that ends cleanly gives exactly its bytes, one by one, and then the end |
| ReadRune.ReadAllDecodes | src/fmt/scan.go:328-367 | the runes of bytes and then the end are their UTF-8 decoding, one error rune for each bad byte |
| ReadRune.NextRuneDecodes | src/fmt/scan.go:328-367 | each call uses up exactly the bytes of the first rune to come |
| ReadRune.BytesAreLost | src/fmt/scan.go:348-357 | bytes are lost if and only if another error than EOF interrupts an unfinished rune |
| ReadRune.DecodesWhole | src/fmt/scan.go:358-362 | a rune that became whole is used whole, or is one bad byte |
| ReadRune.Adapter.ReadRune | src/fmt/scan.go:328-367 | the adapter with its two small buffers gives the next rune of the stream, whatever the reads |
| ReadRune.Adapter.ReadByte | src/fmt/scan.go:312-326 | kept bytes come first, and all but the last are continuation bytes |
| ReadRune.Adapter.KeepBack | src/fmt/scan.go:359-362 | the bytes looked at but not used come next, in order |
| ReadRune.Adapter.UnreadRune | src/fmt/scan.go:369-376 | the last rune is put back |
| ReadRune.SizeDiffers | src/fmt/scan.go:330-335 | the size that comes with a rune read again is another than the first exactly for a bad byte |
| ReadRune.BadByteGrows | src/fmt/scan.go:330-335 | a byte that is read with size 1 and again with size 3 |
| Scanner.ScanAll | src/bufio/scan.go:135-234 | the tokens are exactly the lines of the input up to its first error, when every line goes into the limit |
| Scanner.Scanner.Scan | src/bufio/scan.go:135-234 | one call moves past exactly the first line; it fails only at the end, or for a line that does not surely fit, and it never passes one that cannot fit |
| Scanner.Scanner.TakeLine | src/bufio/scan.go:143-174 | splitting what is buffered agrees with the lines of the whole input |
| Scanner.Scanner.MakeRoom | src/bufio/scan.go:182-209 | shifting and doubling change no byte; room is refused only at the limit |
| Scanner.Scanner.ReadMore | src/bufio/scan.go:210-234 | reading changes neither the input nor its final error, a hundred empty reads included |
| Scanner.SplitAgrees | src/bufio/scan.go:350-367 | a line found in a part is the first line of the whole |
| Scanner.TerminatorsAreStripped | src/bufio/scan.go:336-349 | one newline, with one carriage return before it if there is one, ends a line |
| Scanner.LastLine | src/bufio/scan.go:344-363 | the last line may lack its newline or all of its terminator, and nothing is no line |
| Reader.Reader.Fill | src/bufio/bufio.go:99-127 | filling gets exactly the bytes and error of the first answer that is not empty, or gives up after a hundred empty ones; what is ahead does not change |
| Reader.AheadComes | src/bufio/bufio.go:99-127 | what is ahead is where all that is still to come begins |
| Reader.AheadFilled | src/bufio/bufio.go:111-127 | what is buffered and what the source feeds, up to the error at which reading gives up, are the same before and after filling |
| Reader.Reader.Read | src/bufio/bufio.go:215-263 | what p gets is what comes next, through the buffer or past it, from one answer of the source at most; an error only after all the bytes before it |
| Reader.Reader.ReadByte | src/bufio/bufio.go:266-277 | the next byte if one is ahead, and otherwise the error that ends what is ahead |
| Reader.Reader.UnreadByte | src/bufio/bufio.go:285-302 | exactly the last byte handed out is put back |
| Reader.ReadThenUnreadByte | src/bufio/bufio.go:266-302 | reading a byte and putting it back leaves all as it was |
| Reader.Reader.ReadRune | src/bufio/bufio.go:305-321 | the rune that all that is ahead begins with, a pending error or not; with nothing ahead the error that ends it |
| Reader.Reader.UnreadRune | src/bufio/bufio.go:327-335 | exactly the bytes of the last rune are put back |
| Reader.ReadThenUnreadRune | src/bufio/bufio.go:305-335 | reading a rune and putting it back leaves all as it was |
| Reader.Reader.Peek | src/bufio/bufio.go:142-170 | the first n bytes ahead if there are so many, or else all of them, which stay buffered, and the error that ends them, which is used up; no more than the buffer holds |
| Reader.Reader.Discard | src/bufio/bufio.go:176-207 | n bytes are passed over if so many are ahead, or else all of them, with the error that ends them; with nothing buffered and an error pending, one more filling read |
| Reader.DiscardPassesError | src/bufio/bufio.go:187-207 | a source whose error is not reported to the Discard that comes after it |
| Reader.Reader.ReadSlice | src/bufio/bufio.go:350-388 | success if and only if the first delim ahead goes into the buffer, with the bytes up to it; otherwise as much as is ahead and fits, with the error that ends it or the report of a full buffer |
| Reader.Reader.CollectFragments | src/bufio/bufio.go:449-473 | full buffers and a fragment make up the line, or all that is ahead; the loop ends for every source |
| Reader.Reader.ReadBytes | src/bufio/bufio.go:480-491 | success if and only if delim is ahead, with the bytes up to the first one; otherwise all that is ahead and the error that ends it |
| Reader.LinesAsUsual | src/bufio/bufio.go:462-466 | what is ahead of a line read is what is ahead of any read if and only if that does not end at the source's own report of a full buffer |
| Reader.LinePassesError | src/bufio/bufio.go:455-466 | a source with such a report, and the line that is read past it |
| Writer.Writer.Write | src/bufio/bufio.go:676-698 | what the sink took and what is buffered is what was accepted, after short writes and errors too; an error is that of the sink's last answer, or of a short write, and it stays; the loop ends |
| Writer.Writer.Flush | src/bufio/bufio.go:635-656 | what a sink did not take stays in front of the buffer; an error is the sink's or that of a short write |
| Writer.Writer.WriteByte | src/bufio/bufio.go:701-711 | one byte is accepted, or none with the sticky error |
| Writer.Writer.WriteRune | src/bufio/bufio.go:715-741 | the encoding of the rune, whole unless there is an error, for small buffers too |
| Writer.Writer.WriteString | src/bufio/bufio.go:747-778 | the same as Write, always through the buffer |
| Search.LastIndex | src/bytes/bytes.go:109-143 | the greatest place of sep, or -1 |
| Search.LastIndexRabinKarp | src/bytes/bytes.go:123-142 | the rolling hash is the window's polynomial hash modulo 2^32 at each place |
| Search.RollBack | src/bytes/bytes.go:133-139 | one step of the backward rolling hash |
| Search.RollOn | src/internal/bytealg/bytealg.go:115-124 | one step of the forward rolling hash |
| Search.PowerRK | src/internal/bytealg/bytealg.go:75-82 | repeated squaring gives the power of the prime modulo 2^32 |
| Search.IndexRabinKarp | src/internal/bytealg/bytealg.go:104-127 | the least place of sep, or -1 |
| Search.Index | src/bytes/bytes.go:1262-1347 | the least place of sep, or -1, for every choice of the platform's limits |
| Search.IndexShort | src/bytes/bytes.go:1281-1313 | the byte skips and the switch to direct search miss no place |
| Search.IndexLong | src/bytes/bytes.go:1314-1347 | the byte skips and the switch to rolling hashes miss no place |
| Buffer.Buffer.GrowBy | src/bytes/buffer.go:126-157 | whichever of reset, reslice, slide or new array is chosen, the content stays, there is room, and the content has moved to the front unless there was room behind it |
| Buffer.Buffer.Slide | src/bytes/buffer.go:142-147 | a slide moves no more bytes than were read since the last, so all slides together move no more than the net bytes read |
| Buffer.Buffer.Grow | src/bytes/buffer.go:159-170 | growing changes no content and leaves the promised room; the last read is forgotten only by the reset of an empty buffer |
| Buffer.Buffer.Write | src/bytes/buffer.go:175-182 | a write appends to the queue, and is refused only if it cannot fit |
| Buffer.Buffer.WriteRune | src/bytes/buffer.go:299-312 | the encoding of the rune is appended, refused only if it cannot fit |
| Buffer.Buffer.Read | src/bytes/buffer.go:318-334 | a read takes the front of the queue; EOF exactly when it is empty and something was asked for |
| Buffer.Buffer.Next | src/bytes/buffer.go:340-352 | the front of the queue, as much as there is |
| Buffer.Buffer.ReadRune | src/bytes/buffer.go:373-390 | the first rune of the queue |
| Buffer.Buffer.UnreadByte | src/bytes/buffer.go:413-422 | the last byte comes back exactly when its place is still there |
| Buffer.Buffer.UnreadRune | src/bytes/buffer.go:396-406 | the same for a rune |
| Buffer.ReadThenUnreadByte | src/bytes/buffer.go:356-422 | reading a byte and putting it back leaves the queue as it was |
| Buffer.ReadThenUnreadRune | src/bytes/buffer.go:373-406 | and so for a rune |
| Buffer.GrowThenUnreadByte | src/bytes/buffer.go:126-170 | after a growth the last byte read is put back if and only if the content stayed in its place |
| Buffer.GrowLosesByte | src/bytes/buffer.go:142-157 | a byte that is read and not put back, with no error |
| Buffer.EndThenUnreadByte | src/bytes/buffer.go:408-453 | a read that ended with EOF, and an UnreadByte after it that succeeds |
| Buffer.Buffer.ReadBytes | src/bytes/buffer.go:430-453 | the shortest front that ends in delim, or everything and EOF |
| Buffer.Buffer.Truncate | src/bytes/buffer.go:91-101 | the first n bytes stay |

## Left out

- Fma.FMA: a zero, infinite or not-a-number operand makes the code use the host's x*y + z; that value is the parameter `hardware`, and `ZeroOperandRoundsOnce` tells what it is for finite operands.
- Scaling.Ldexp: the constant 1 / 2^53 and the last multiplication are those of `Ieee`; what the host does with the rounding mode is not modelled.
- MediaType.ParseMediaType: only ASCII letters change case, and only ASCII white space is trimmed; the source also maps and trims non-ASCII text, which no formatted type contains.  Error values are an enumeration without their texts.
- EncodedWord.DecodeHeaderText: the base64 decoder and the reader for other charsets are parameters, functions of what they are given; writing base64 words, and the decoder of a single word, are not modelled.
- Escape.UnescapeString: the table of named entities is a parameter with the width condition stated in src/html/entity_test.go.
- Scanner.Scanner.Scan: the split function is ScanLines; custom split functions, the final-token error, the panic for empty tokens and the check against doubling past the largest int are left out.
- Reader.Reader.ReadSlice: lines are values, so that a line aliases the buffer until the next read is not modelled.
- Buffer.Buffer.GrowBy: running out of memory is modelled by the size check alone; the capacity of a new array is any that is large enough.
- Search.Index: the platform's direct search is a plain loop with the same contract.
- ContextTree.Contexts.Cancel: contexts are entries of one table, not heap objects; a top-level cancel is taken as one step of `Context`, which the code does not guarantee; `ContextSteps` is about the steps inside it.
- ContextSteps.StepKeeps: the timer and the once of a context are those of `Context` and do not change there; the stop function of an after-func is a cancel like any other.
- Real timers and deadlines: expiry is a cancel step that may come at any time.
- Custom contexts, the delegation to a parent's AfterFunc method and the watcher goroutine of context.go.
- The String methods of contexts, and keys that are not comparable.
- ReadLine, ReadString, Reset, ReaderFrom, WriterTo and StringWriter in bufio; ReadFrom, WriteTo, WriteString and ReadString of the byte buffer: delegation or the same loop again.
- ScanBytes, ScanRunes and ScanWords.
- The polynomial functions of package math and the assembly versions of any function.
