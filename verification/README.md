# Verified models of the toolkit

This project models, in Dafny, the parts of the toolkit where state, loops and arithmetic meet, and proves what they are
for. It follows the C and Python code: a struct or object whose fields are updated is a class with those fields, a buffer
that is rewritten is an array, and every such method is proved against a function on values. The main theorems are about
those functions, or about all runs of a transition system.

| files | what they model |
|---|---|
| `Stream` | the stop-and-wait stream over datagrams of `api/python/rpc.py`, as an object and as two endpoints with a network that loses, repeats and reorders |
| `EvalGrammar`, `EvalLexer`, `EvalRecovery`, `EvalArena`, `EvalMemory`, `Eval` | the expression language of `fd_eval.c`: layered grammar, precedence climbing, lexer and its inverse, parsing on after errors, the node arena and its shared error node, the parser object |
| `AesTables`, `Aes`, `AesCbc`, `AesBuffer`, `AesVector` | AES-128 and CBC (FIPS 197, NIST SP 800-38A), first on blocks, then as the in-place C code, and the example of FIPS 197, appendix C.1 |
| `Sha1`, `Sha1Block`, `Sha1Stream`, `Sha1Vector` | SHA-1 (FIPS 180-4) with 80 words, the circular 16-word form, the streaming context, and the digest of "abc" |
| `BootFormat`, `Package`, `BootVerdicts`, `BootFlash`, `BootReader`, `BootInstall`, `BootLoader`, `BootEndToEnd` | packaging, validation, deciphering and page-wise installation of firmware, and all of it together |
| `SplitBoot`, `SplitUpdate` | an update read from a controller at the other end of a link: the link, and the boot loader as its client |
| `Fifo`, `Cobs`, `Crc16`, `Envelope`, `Gateway` | the framing stack, from the byte ring to gateways in a row |
| `Binary` | the bounded buffer and its variable-length integers |
| `ObjectFifo`, `ObjectFifoRuns` | the object fifo, in one thread and with producer and consumer interleaved at every access to an index |
| `Bits`, `BitPacker`, `BitPackerC`, `Delta`, `DeltaC`, `Sensing` | the bit packers and the delta codec in Python and C, whole datasets |
| `Calendar` | time to date and back |
| `I2cBus`, `I2cMaster` | the bit-banged I2C master and what an observer of the lines reads |
| `Bytes`, `Arithmetic` | shared bytes, words, quotients and remainders |

`dafny verify dfyconfig.toml` checks everything.

## Where the code and its promises differ

The models keep what the code does. These are the places where that is not what one would expect; each has a lemma or a
contract that says exactly when.

* Stream: `release` meets a free lock exactly when the awaited number is acknowledged while no writer holds the lock
  (`ReleaseFaultsExactly`); within a session that never happens, after a disconnect a late acknowledgement of 0 does it
  (`LateAckAfterDisconnect`). A number from 2^31 on is read as a command (`DataIsReadAsData`).
* Expressions: the test for the end of the input also succeeds at a character that no token starts with, so `1$(` is
  accepted (`AcceptsTrailingJunk`). The verdict is wrong exactly on the texts that parse and hold such a character
  (`VerdictIsRightExactly`).
* Expressions: the parser goes on after an error, and every node beyond the heap is the one error node. Evaluation then
  follows whatever that node points to, and never ends when it points to itself: `--1` with a heap of one node
  (`TwoSignsNeverEnd`). It ends exactly when the tree that was built fits the heap, or has no missing operand and is one
  node over (`CalculationEndsExactly`); for a text that parses that is when it has at most one value or operator token
  more than the heap has nodes, and with no more tokens than nodes it ends for every text (`CalculationEndsByTokens`).
* SHA-1: the update adds the bytes waiting in the buffer to the length in 32 bits. When the sum wraps it takes the wrong
  branch and copies the data over the end of the buffer, and it does so on no other lengths (`SumWraps`).
* Calendar: day numbers have 32 bits with a sign. The week day of the last four days of that range is wrong
  (`WeekDayExactly`, `LastWeekDays`), and a date beyond the range has another date's time (`TimeOfDate`).
* Boot loader: the hash field is only zeroed when it lies whole in one of the 64-byte pieces that are hashed. An update
  is accepted, and installed, exactly when it does (or when the digest happens to agree anyway): `HashFieldSeen` in
  `UpdateIsAccepted` and `PackagedUpdate`. Additions of addresses wrap around at 2^32, as in the code.
* Boot loader: flash with a good header whose length is no multiple of 64, or with which the executable would end at one of
  the addresses 0 to 3, makes the check fail instead of reporting an issue, and nothing else does
  (`ExecutableErrorExactly`). The update then fails too, so no update ever replaces such flash contents
  (`NothingReplacesOddLength`).
* Byte stuffing: a full block at the end is followed by one more code, which other encoders leave out; so re-encoding
  makes a frame one byte longer exactly if its last block is full (`ReencodingGrowsExactly`, with `FrameThatGrows`). In a
  gateway such a frame of the buffer's size is written one byte beyond the buffer when it is sent on, and no other frame
  is (`PayloadFits`).
* Gateway: a frame of exactly the buffer's size can be handled but not forwarded (`FullBufferIsNotForwarded`).
* Variable-length integers: from 2^63 on, a number reads back if and only if its bits 61 and 62 are clear
  (`UnsignedRoundTrip`), and signed numbers accordingly (`SignedRoundTrip`).
* C bit packer: a field survives if and only if it fits the 32-bit register beside the bits already waiting
  (`KeptWhenItFits`, with `WideFieldIsLost` as an example).
* I2C: an exchange without transfers puts a START and a STOP on a free bus (`DeviceIo`). The last byte of a read is
  acknowledged when another read follows. If that one is of no bytes and then a write comes, the data line is still down
  and goes up under a high clock: the slave sees a STOP before the repeated START. This happens exactly in exchanges that
  come to such a write (`UnintendedStopExactly`, with `StopBeforeWrite`).
* Split boot loader: a refused or mismatched response leaves the operation pending (`ClearedOnlyByItsResponse`).

## Model

| member | source | states |
|---|---|---|
| ReliableStream.DataIsReadAsData | api/python/rpc.py:309 | a data packet is read as data exactly when its number leaves bit 31 clear |
| ReliableStream.PacketsByBytes | api/python/rpc.py:441-479 | what goes over the wire, byte for byte |
| ReliableStream.Stream.Disconnect | api/python/rpc.py:385-396 | disconnecting resets both numbers, frees the lock and forgets the last packet |
| ReliableStream.Stream.WaitForSendAck | api/python/rpc.py:469-471 | a writer gets past the lock exactly when it is free, and then holds it |
| ReliableStream.Stream.Enqueue | api/python/rpc.py:707-711 | the payload the lock was taken for becomes the last of the queue |
| ReliableStream.Stream.SendData | api/python/rpc.py:473-479 | the queued payload becomes the last one, numbered and sent |
| ReliableStream.Stream.ReceiveAck | api/python/rpc.py:481-494 | the new state and any disconnect, for every acknowledgement |
| ReliableStream.Stream.ReceiveData | api/python/rpc.py:546-559 | repeats are acknowledged again, the next payload is delivered, a gap is refused |
| ReliableStream.Stream.ReceiveMessage | api/python/rpc.py:561-594 | every datagram whatever is dispatched as its header says |
| ReliableStream.Stream.Check | api/python/rpc.py:596-612 | what is sent, exactly: the last packet again when its timer is due, a keep-alive, a disconnect; and when the session ends |
| ReliableStream.StepKeeps | api/python/rpc.py:469-494 | every step of either end or the network keeps the invariant; only a silent peer ends a session, so the nack and disconnect-on-ack branches are never taken |
| ReliableStream.EveryRunKeeps | api/python/rpc.py:546-559 | in every state of every run delivered payloads are the first ones written, numbers are equal or one apart, at most one payload is outstanding and the lock is held for it |
| ReliableStream.CanDeliver | api/python/rpc.py:600-606 | from every state in which a writer waits, whatever the network has lost, some run delivers its payload and frees it; that run sends the payload again when the timer is due |
| ReliableStream.CanDeliverAfterLoss | api/python/rpc.py:600-606 | so it does when both directions have lost everything |
| ReliableStream.LostUntilResent | api/python/rpc.py:596-612 | a payload that the network has lost stays lost, and the writer locked out, under every step but that timer |
| ReliableStream.LateAckAfterDisconnect | api/python/rpc.py:481-494 | after a disconnect an acknowledgement of 0 releases a free lock |
| ReliableStream.ReleaseFaultsExactly | api/python/rpc.py:481-494 | when exactly release meets a free lock |
| ReliableStream.RefusalsDisconnect | api/python/rpc.py:481-499 | a nack, an acknowledgement ahead of the numbers sent and a request to disconnect end the session |
| ReliableStream.GapIsRefused | api/python/rpc.py:546-559 | a number beyond the next is refused with a nack, and nothing changes |
| EvalGrammar.ParseIsTheGrammar | subsys/base/src/fd_eval.c:308-361 | precedence climbing accepts a token list exactly when it is a phrase of the layered grammar, and returns that phrase |
| EvalGrammar.Unambiguous | subsys/base/src/fd_eval.c:332-346 | no token list is two phrases |
| EvalGrammar.ParseOfShow | subsys/base/src/fd_eval.c:308-346 | any expression, written with the parentheses its precedences and left associativity need, parses back to itself |
| EvalGrammar.ShowIsShortest | subsys/base/src/fd_eval.c:308-346 | no phrase for the same expression has fewer tokens |
| EvalGrammar.TwoOperators | subsys/base/src/fd_eval.c:58-71 | between two operators the one of the tighter layer has the value in the middle, and of one layer the first |
| EvalGrammar.SignAndOperator | subsys/base/src/fd_eval.c:27-31 | a sign before a value belongs to it alone |
| EvalLexer.LexOfWrite | subsys/base/src/fd_eval.c:193-266 | tokens written with any blanks between them are read back, and all are recognised |
| EvalLexer.ParseOfText | subsys/base/src/fd_eval.c:193-361 | the same from text to tree, with blanks anywhere or nowhere |
| EvalLexer.ValuesExactly | subsys/base/src/fd_eval.c:230-252 | which texts are values: digits with an optional point and digits, or a letter and then letters, digits and underscores |
| EvalLexer.CharacterClasses | subsys/base/src/fd_eval.c:169-183 | which characters those are |
| EvalRecovery.RecoverIsParse | subsys/base/src/fd_eval.c:308-361 | for any tokens: an error is remembered exactly when they are no phrase, and otherwise the tree built is the tree of that phrase |
| EvalArena.ChildrenBelow | subsys/base/src/fd_eval.c:133-167 | every child of a node is a node before it, or the error node where an operand is missing or the heap was full |
| EvalArena.OneParent | subsys/base/src/fd_eval.c:133-167 | every node of the heap but the root is the child of exactly one, whatever was parsed |
| EvalArena.SizeCountsTokens | subsys/base/src/fd_eval.c:133-167 | for any tokens, a node is asked for exactly for each value and operator token that is consumed |
| EvalArena.DenoteIsImage | subsys/base/src/fd_eval.c:818-872 | what is built for a tree means the tree with every value and operator replaced by what it means |
| EvalArena.FreeDenotesItself | subsys/base/src/fd_eval.c:818-872 | with values and operators that mean themselves, that is the tree |
| EvalMemory.FittingEnds | subsys/base/src/fd_eval.c:818-872 | on the memory that parsing leaves, a tree that fits, or is complete and one node over, is evaluated to its recursive meaning |
| EvalMemory.OtherwiseNeverEnds | subsys/base/src/fd_eval.c:133-143 | any other tree is evaluated without end: the error node leads back to itself |
| EvalMemory.EndsExactly | subsys/base/src/fd_eval.c:848-872 | evaluation ends if and only if the tree fits, or is complete and one node over |
| EvalMemory.BuiltIsSound | subsys/base/src/fd_eval.c:133-167 | no pointer in that memory leaves the nodes in use |
| Eval.Parser.NextOperator | subsys/base/src/fd_eval.c:206-226 | the first operator of the tables that matches at an index, which is what the tokens say |
| Eval.Parser.Next | subsys/base/src/fd_eval.c:193-261 | the next token, and its end, for any text |
| Eval.Parser.Consume | subsys/base/src/fd_eval.c:263-266 | drops exactly that token |
| Eval.Parser.Expect | subsys/base/src/fd_eval.c:277-284 | sets the error exactly when the next token is another, and consumes |
| Eval.Parser.AllocateNode | subsys/base/src/fd_eval.c:133-143 | the next node, or the error node, overwritten, when the heap is full; an error unless the heap has no nodes at all |
| Eval.Parser.HighestPriority | subsys/base/src/fd_eval.c:308-330 | for any tokens: the primary or the hole, what was written to heap and error node, and the error |
| Eval.Parser.ParseExpression | subsys/base/src/fd_eval.c:332-346 | for any tokens: the tree built, what was written to heap and error node in postorder, and the error; terminates on the input that remains |
| Eval.Parser.ParseAll | subsys/base/src/fd_eval.c:352-361 | for any text and heap: tree, memory and error; there is none exactly when the tokens parse and the heap has room |
| Eval.Parser.Evaluate | subsys/base/src/fd_eval.c:848-872 | wherever following the nodes comes to an end, the value found there and whether all values were known |
| Eval.Check | subsys/base/src/fd_eval.c:363-367 | the verdict without a heap |
| Eval.CalculationEndsExactly | subsys/base/src/fd_eval.c:874-881 | on a given text and heap size evaluation ends if and only if the tree fits, or is complete and one node over |
| Eval.CalculationEndsByTokens | subsys/base/src/fd_eval.c:874-881 | counted in tokens: it ends for any text with no more than the heap has nodes, and for a text that parses exactly with at most one more |
| Eval.TwoSignsNeverEnd | subsys/base/src/fd_eval.c:133-143 | with one node, `--1` leaves an error node that is its own operand |
| Eval.Calculate | subsys/base/src/fd_eval.c:874-881 | on every text and heap on which it returns: success is reported exactly when the check succeeds, the heap has room and all values are known, and the value is then the image of the one tree of the text |
| Eval.CalculateTree | subsys/base/src/fd_eval.c:874-881 | with values and operators that mean themselves it returns that tree |
| Eval.VerdictOnTokens | subsys/base/src/fd_eval.c:352-367 | when all tokens are recognised the verdict is that of the grammar |
| Eval.VerdictIsRightExactly | subsys/base/src/fd_eval.c:277-284 | the verdict is membership in the language if and only if all tokens are recognised or the text is refused anyway |
| Eval.AcceptsTrailingJunk | subsys/base/src/fd_eval.c:259-284 | an unrecognised character passes for the end of the input |
| AesTables.SubByteInverse | subsys/crypto/src/fd_crypto_aes.c:139-147 | the two substitution tables undo each other, for every byte |
| AesTables.EntryIsLookup | subsys/crypto/src/fd_crypto_aes.c:139-147 | the table lookup is the entry at the two halves of the byte |
| Aes.ShiftRowsInverse | subsys/crypto/src/fd_crypto_aes.c:246-272 | shifting rows back undoes the shift |
| Aes.MixColumnInverse | subsys/crypto/src/fd_crypto_aes.c:280-334 | the inverse column mix undoes the mix (FIPS 197, section 5.3.3) |
| Aes.CipherInverse | subsys/crypto/src/fd_crypto_aes.c:381-429 | the inverse cipher undoes the cipher for every state and schedule |
| AesCbc.RconIsPower | subsys/crypto/src/fd_crypto_aes.c:114-134 | the round constants are the powers of x |
| AesCbc.ExpansionByBytes | subsys/crypto/src/fd_crypto_aes.c:150-213 | the key schedule byte by byte (FIPS 197, section 5.2), for every key |
| AesCbc.CbcInverse | subsys/crypto/src/fd_crypto_aes.c:493-576 | chained decryption undoes chained encryption (NIST SP 800-38A, section 6.2) |
| AesCbc.CbcByBlocks | subsys/crypto/src/fd_crypto_aes.c:493-533 | each ciphertext block is the cipher of the plaintext block added to the ciphertext block before (NIST SP 800-38A, section 6.2) |
| AesCbc.ChunksDecryptTheWhole | subsys/crypto/src/fd_crypto_aes.c:535-593 | any cut of the ciphertext into calls gives the plaintext of one call |
| AesCbc.DecryptInvertsEncrypt | subsys/crypto/src/fd_crypto_aes.c:493-576 | the same on bytes, for every multiple of 16 |
| AesCbc.DecryptInPieces | subsys/crypto/src/fd_crypto_aes.c:535-593 | decryption of two parts with the vector carried over is decryption of both |
| AesBuffer.Context.KeyExpansion | subsys/crypto/src/fd_crypto_aes.c:150-213 | the 176 bytes written are the key schedule of FIPS 197, section 5.2 |
| AesBuffer.Context.AddRoundKey | subsys/crypto/src/fd_crypto_aes.c:217-227 | the window becomes its sum with the round key, the rest of the buffer stays |
| AesBuffer.Context.SubBytes | subsys/crypto/src/fd_crypto_aes.c:231-241 | the window is substituted in place |
| AesBuffer.Context.ShiftRows | subsys/crypto/src/fd_crypto_aes.c:246-272 | the rows rotate in place |
| AesBuffer.Context.MixColumns | subsys/crypto/src/fd_crypto_aes.c:280-293 | the columns mix in place |
| AesBuffer.Context.InvMixColumns | subsys/crypto/src/fd_crypto_aes.c:318-334 | and back |
| AesBuffer.Context.InvSubBytes | subsys/crypto/src/fd_crypto_aes.c:339-349 | the window is substituted back |
| AesBuffer.Context.InvShiftRows | subsys/crypto/src/fd_crypto_aes.c:351-377 | the rows rotate back |
| AesBuffer.Context.Cipher | subsys/crypto/src/fd_crypto_aes.c:381-404 | in place, the cipher of the window |
| AesBuffer.Context.InvCipher | subsys/crypto/src/fd_crypto_aes.c:406-429 | in place, the inverse cipher of the window |
| AesBuffer.Context.CbcEncryptBuffer | subsys/crypto/src/fd_crypto_aes.c:493-533 | the output is the CBC encryption of the input, for whole blocks |
| AesBuffer.Context.CbcDecryptBuffer | subsys/crypto/src/fd_crypto_aes.c:535-576 | the output is the CBC decryption, and key and vector are kept for the next call |
| AesBuffer.Context.DecryptInitialize | subsys/crypto/src/fd_crypto_aes.c:580-586 | installs schedule and vector |
| AesBuffer.Context.DecryptUpdate | subsys/crypto/src/fd_crypto_aes.c:588-591 | deciphers a piece and leaves the vector for the next |
| AesVector.RoundByColumns | subsys/crypto/src/fd_crypto_aes.c:381-404 | a round of the cipher as a formula on four columns, for every key and block |
| AesVector.KeyByColumns | subsys/crypto/src/fd_crypto_aes.c:171-213 | a round key from the one before, on four columns |
| AesVector.CipherOfVector | subsys/crypto/src/fd_crypto_aes.c:381-404 | the example of FIPS 197, appendix C.1, through all rounds |
| Sha1.HashBlocksAppend | subsys/crypto/src/sha1.c:58-98 | hashing whole blocks in two parts is hashing both |
| Sha1Block.MacroIsF | subsys/crypto/src/sha1.c:46-50 | the round macros compute the functions of section 4.1.1 of FIPS 180-4 |
| Sha1Block.MacroKIsK | subsys/crypto/src/sha1.c:46-50 | the constants in the macros are those of section 4.2.1 of FIPS 180-4 |
| Sha1Block.SlotsBack | subsys/crypto/src/sha1.c:42-43 | the 16-word circular schedule still holds the words of 3, 8, 14 and 16 steps ago |
| Sha1Block.Transform | subsys/crypto/src/sha1.c:58-98 | the circular, register-rotating form computes the 80-word compression |
| Sha1Stream.Context.Init | subsys/crypto/src/sha1.c:102-110 | the state of the empty message |
| Sha1Stream.Context.Update | subsys/crypto/src/sha1.c:113-131 | the context of a message becomes the context of the longer message, however it is cut, where the 32-bit sum does not wrap |
| Sha1Stream.SumWraps | subsys/crypto/src/sha1.c:116-129 | the 32-bit comparison takes the right branch if and only if the sum does not wrap; if it does, the copy exceeds the buffer |
| Sha1Stream.Context.Final | subsys/crypto/src/sha1.c:135-159 | the digest is that of the padded whole message, and the context is wiped |
| Sha1Stream.DigestOfChunks | subsys/crypto/src/sha1.c:113-159 | for every split into calls of at most 2^32 - 64 bytes, the digest of the whole |
| Sha1Vector.ConstantIsRoot | subsys/crypto/src/sha1.c:46-50 | the constants are the square roots of 2, 3, 5 and 10, with 30 bits behind the point |
| Sha1Vector.DigestOfAbc | subsys/crypto/src/sha1.c:58-159 | the digest of "abc" is a9993e36 4706816a ba3e2571 7850c26c 9cd0d89d |
| Sha1Vector.LengthByDigits | subsys/crypto/src/sha1.c:139-142 | the length behind a message is its digits to the base 256, the highest first |
| BootFormat.UnpackOfPack | subsys/boot/include/fd_boot.h:4-8 | stored words read back |
| BootFormat.MaskedPiece | subsys/boot/src/fd_boot.c:223-239 | zeroing piece by piece is zeroing the whole, when a piece holds the window |
| Package.PackageExecutable | tools/update/encrypt.py:121-130 | length, hash, padding and trailer are put in and nothing else changes |
| Package.PackageUpdate | tools/update/encrypt.py:132-138 | footer and hash of the update |
| Package.PackageAll | tools/update/encrypt.py:188-246 | packaging succeeds exactly when the metadata checks do, and gives an executable and the encrypted update that carries it |
| BootFlash.Flash.Erase | subsys/boot/src/fd_boot_nrf53.c:17-65 | an aligned page becomes ones, any other location is refused |
| BootFlash.Flash.Write | subsys/boot/src/fd_boot_nrf53.c:33-73 | word by word, bits can only be cleared |
| BootFlash.ClearByBits | subsys/boot/src/fd_boot_nrf53.c:33-73 | bit by bit, what a write can change |
| BootFlash.ErasedPages | subsys/boot/src/fd_boot.c:802-858 | an installation erases exactly the pages that cover the image |
| BootFlash.ErasedOnce | subsys/boot/src/fd_boot.c:802-858 | none of them twice |
| BootFlash.WrittenWords | subsys/boot/src/fd_boot.c:802-858 | exactly the words of the image are written |
| BootFlash.WritesAreSafe | subsys/boot/src/fd_boot.c:802-858 | every write goes to a page erased before it and never erased after it |
| BootReader.ReadAndDecrypt | subsys/boot/src/fd_boot.c:393-414 | deciphers exactly the 64-byte pieces that can be read |
| BootReader.CheckHash | subsys/boot/src/fd_boot.c:199-253 | fails exactly when the range or a read does; otherwise compares the digest of the masked content, deciphered or not |
| BootLoader.Loader.GetExecutableMetadata | subsys/boot/src/fd_boot.c:264-385 | computes the verdict on the executable in flash, whatever the bytes |
| BootLoader.Loader.DecryptRange | subsys/boot/src/fd_boot.c:416-466 | sixteen bytes at a time gives the decryption of the range |
| BootLoader.Loader.CheckContent | subsys/boot/src/fd_boot.c:630-708 | the checks that need the key |
| BootLoader.Loader.GetUpdateMetadata | subsys/boot/src/fd_boot.c:477-709 | computes the verdict on the update, whatever the bytes |
| BootLoader.Loader.Install | subsys/boot/src/fd_boot.c:770-868 | on memory whose bits only clear the image ends up in flash with ones to the end of its last page and all else unchanged; it fails exactly on an unaligned target, having changed nothing |
| BootLoader.Loader.Update | subsys/boot/src/fd_boot.c:870-911 | the outcome and the flash are those of the decision on both verdicts |
| BootInstall.VersionsAreOrdered | subsys/boot/src/fd_boot.c:711-729 | the version comparisons are a strict total order |
| BootInstall.IsBeforeByNumber | subsys/boot/src/fd_boot.c:711-729 | the version before is the one whose three words make the smaller number |
| BootInstall.ActionByNumber | subsys/boot/src/fd_boot.c:731-768 | what is decided, by those numbers and the policy, in every case |
| BootVerdicts.ExecutableIsAccepted | subsys/boot/src/fd_boot.c:264-385 | a packaged executable in flash is accepted exactly when its hash field is seen |
| BootVerdicts.AcceptedIsExecutable | subsys/boot/src/fd_boot.c:264-385 | only such memory is accepted |
| BootVerdicts.ErasedIsRejected | subsys/boot/src/fd_boot.c:298-301 | erased flash is no executable |
| BootVerdicts.ExecutableErrorExactly | subsys/boot/src/fd_boot.c:298-356 | when the check of flash fails instead of coming to a verdict, exactly |
| BootVerdicts.ExecutableIssueExactly | subsys/boot/src/fd_boot.c:298-384 | which issue the check of flash finds, from the words in flash |
| BootVerdicts.UpdateIsAccepted | subsys/boot/src/fd_boot.c:477-709 | a packaged update is accepted exactly when its hash field is seen, with the executable's description and the vector |
| BootVerdicts.AcceptedExactly | subsys/boot/src/fd_boot.c:477-709 | which updates are accepted, exactly, whoever made them |
| BootEndToEnd.PackagedUpdate | subsys/boot/src/fd_boot.c:870-911 | on any flash: a packaged update is installed when the number of its version is above that of an acceptable executable or there is none, flash stays as it was otherwise, and when the update fails, exactly; installed, the outcome is valid |
| BootEndToEnd.NothingReplacesOddLength | subsys/boot/src/fd_boot.c:328-331 | flash with a good header and a length of one stays as it is, whatever the update and the policy |
| BootEndToEnd.InstalledDelivery | tools/update/encrypt.py:212-233 | the executable region is then the packaged executable byte for byte and all other pages are untouched |
| BootEndToEnd.ValidMeansRunnable | subsys/boot/src/fd_boot.c:870-911 | for any update, a valid outcome leaves an acceptable executable |
| BootEndToEnd.OnlyAcceptedUpdatesWrite | subsys/boot/src/fd_boot.c:870-911 | for any update that is not accepted, flash does not change |
| BootEndToEnd.SecondRunChangesNothing | subsys/boot/src/fd_boot.c:731-768 | running the update again is valid and writes nothing |
| BootEndToEnd.PackageThenUpdate | tools/update/encrypt.py:188-246 | package, then update erased flash: valid, and the region is the packaged executable |
| SplitBoot.ClearedOnlyByItsResponse | subsys/boot/src/fd_boot_split_peripheral.c:235-269 | a pending read is cleared, and answered, exactly by a response whose bytes give that location and length and bring so many bytes; a read of nothing also by three shorter ones |
| SplitBoot.ReadOverTheLink | subsys/boot/src/fd_boot_split_controller.c:55-88 | a read over the link gives exactly the controller's bytes, or fails when they are not there |
| SplitBoot.OperationOverTheLink | subsys/boot/src/fd_boot_split_peripheral.c:153-233 | so does every operation, and responses never meet an operation of another kind |
| SplitBoot.StepKeeps | subsys/boot/src/fd_boot_split_controller.c:128-146 | every step of either end keeps the invariant |
| SplitBoot.UpdateOverTheLink | subsys/boot/src/fd_boot_split_controller.c:178-249 | in every run, when the controller takes the final response all nested reads are complete, and the update went as with local storage |
| SplitBoot.OneStepIsPossible | subsys/boot/src/fd_boot_split_peripheral.c:85-113 | no state is stuck |
| SplitUpdate.HistoryReaches | subsys/boot/src/fd_boot.c:477-709 | with the answers of local storage the boot loader is always on the way to the result of the update as a whole |
| SplitUpdate.AnswersAreBounded | subsys/boot/src/fd_boot.c:870-911 | whatever it is answered, the boot loader comes to an end |
| SplitUpdate.OutcomeIsRead | subsys/boot/src/fd_boot_split_controller.c:280-304 | the controller reads the outcome that the peripheral had |
| SplitUpdate.ControllerUpdates | subsys/boot/src/fd_boot_split_peripheral.c:383-416 | in every run, for any update, the outcome that the controller reads and the flash are those of an update from local storage |
| SplitUpdate.ControllerInstalls | subsys/boot/src/fd_boot_split_controller.c:178-249 | a packaged, newer update at the controller leaves the packaged executable in the flash of the peripheral, and the controller is told that it is valid |
| ByteFifo.Fifo.Get | subsys/base/src/fd_fifo.c:27-38 | the oldest byte, if any |
| ByteFifo.Fifo.Put | subsys/base/src/fd_fifo.c:40-55 | appended, unless only the place that stays empty is left |
| ByteFifo.Fifo.GetCount | subsys/base/src/fd_fifo.c:19-25 | the number of bytes held |
| Cobs.RoundTrip | subsys/base/src/fd_cobs.c:8-67 | decoding restores what was encoded |
| Cobs.EncodingIsFramed | subsys/base/src/fd_cobs.c:8-48 | no zero byte, and at most length + 1 + length/254 bytes |
| Cobs.EncodeByPlaces | subsys/base/src/fd_cobs.c:8-48 | without runs of 254 bytes: every byte stands one place further on, and in the place of a zero the distance to the next |
| Cobs.DecodingShrinks | subsys/base/src/fd_cobs.c:50-67 | decoding any bytes never grows |
| Cobs.ReencodingGrowsExactly | subsys/base/src/fd_cobs.c:8-67 | re-encoding a frame takes one byte more if and only if its last block is full, and otherwise as many |
| Cobs.FrameThatGrows | subsys/base/src/fd_cobs.c:34-42 | 254 bytes behind the code 255 take 256 bytes when they are encoded again |
| Cobs.EncodeInPlace | subsys/base/src/fd_cobs.c:8-48 | in place, with a look-ahead ring of which length/254 <= size - 2 is enough, the result is the encoding and the bytes behind it stay |
| Cobs.DecodeInPlace | subsys/base/src/fd_cobs.c:50-67 | in place, for any bytes, the result is the decoding and the bytes behind it stay |
| Crc16.DivisionWithRemainder | subsys/base/src/fd_crc16.c:3-17 | the register is the remainder of dividing the message, followed by sixteen zeros, by the polynomial |
| Crc16.CheckValue | subsys/base/src/fd_crc16.c:3-17 | the checksum of the digits from 1 to 9 is 31c3 |
| Crc16.RemainderIsLinear | subsys/base/src/fd_crc16.c:3-17 | it is linear over exclusive or |
| Crc16.BurstsAreDetected | subsys/base/src/fd_crc16.c:3-17 | equal-length strings that differ only inside sixteen consecutive bits have different checksums |
| Crc16.Update | subsys/base/src/fd_crc16.c:3-17 | the unmasked 32-bit loop computes that remainder |
| Envelope.OpenOfSealed | subsys/base/src/fd_envelope.c:8-57 | what is sealed opens again |
| Envelope.SealedOfOpen | subsys/base/src/fd_envelope.c:8-37 | what opens was sealed so |
| Envelope.SealedByPlaces | subsys/base/src/fd_envelope.c:39-49 | where the parts of a message are |
| Envelope.DamageIsNoticed | subsys/base/src/fd_envelope.c:8-37 | a burst of up to sixteen bits under the checksum keeps a message from opening |
| Envelope.FrameRoundTrip | subsys/base/src/fd_envelope.c:8-57 | a frame has no zero and gives back payload and envelope |
| Envelope.EncodeMessage | subsys/base/src/fd_envelope.c:39-57 | the buffer holds the frame of what it held |
| Envelope.DecodeMessage | subsys/base/src/fd_envelope.c:8-37 | the payload, or a refusal, for any bytes |
| Gateway.ReceiveSplits | subsys/base/src/fd_gateway.c:75-89 | cutting the stream into receive calls makes no difference |
| Gateway.StreamIsDelivered | subsys/base/src/fd_gateway.c:60-89 | every frame of a stream is processed here or sent on byte for byte, in order, once, and no assertion fails |
| Gateway.FullBufferIsNotForwarded | subsys/base/src/fd_gateway.c:43-58 | a frame of the buffer's size cannot be sent on |
| Gateway.FailsExactly | subsys/base/src/fd_gateway.c:43-89 | when the end of a frame passes without a failed assertion, exactly, and what has then been done with it |
| Gateway.PayloadFits | subsys/base/src/fd_gateway.c:43-73 | a frame that is opened and sent on exceeds the buffer, by one byte, if and only if it filled it and ended in a full block |
| Gateway.ZeroResynchronizes | subsys/base/src/fd_gateway.c:75-89 | after any bytes, a zero makes the gateway ready for the next frame |
| Gateway.HopsAreTransparent | subsys/base/src/fd_gateway.c:43-89 | any number of forwarding gateways passes a stream on unchanged |
| Gateway.ItemsReachTheirTarget | subsys/base/src/fd_gateway.c:43-89 | and the gateway they are meant for processes exactly the items sent |
| Gateway.Gateway.TransmitMessage | subsys/base/src/fd_gateway.c:43-58 | what is sent and which assertions fail |
| Gateway.Gateway.ProcessMessage | subsys/base/src/fd_gateway.c:60-73 | handled, forwarded or refused |
| Gateway.Gateway.MessageRx | subsys/base/src/fd_gateway.c:75-89 | for any bytes, the traffic of the fold over them |
| Binary.UnsignedRoundTrip | subsys/base/src/fd_binary.c:250-268 | a 64-bit number reads back, from exactly its bytes, if and only if it is below 2^63 or its bits 61 and 62 are clear |
| Binary.EncodeIsDigits | subsys/base/src/fd_binary.c:384-396 | the bytes are the digits to the base 128, the lowest first, as few as there can be |
| Binary.SignedRoundTrip | subsys/base/src/fd_binary.c:270-279 | every signed number from -2^62 to 2^62 - 1, and beyond those exactly the ones whose zigzag reads back |
| Binary.PatternsZigzag | subsys/base/src/fd_binary.c:398-407 | the shifts and complements on 64-bit patterns are the zigzag of numbers |
| Binary.Buffer.PutByte | subsys/base/src/fd_binary.c:296-318 | appended, or the overflow is remembered |
| Binary.Buffer.PutWord | subsys/base/src/fd_binary.c:320-326 | two bytes or none |
| Binary.Buffer.PutVarUint | subsys/base/src/fd_binary.c:384-396 | appends as much of the encoding as there is room for, and remembers an overflow exactly when that is not all |
| Binary.Buffer.PutVarInt | subsys/base/src/fd_binary.c:398-407 | the same for the zigzag of a signed number |
| Binary.Buffer.GetVarUint | subsys/base/src/fd_binary.c:250-268 | value, get index and errors for any bytes |
| Binary.Buffer.GetVarInt | subsys/base/src/fd_binary.c:270-279 | the same, signed |
| ObjectFifo.PlaceByRemainder | subsys/base/src/fd_object_fifo.c:84 | the remainder finds the place around the ring |
| ObjectFifo.Fifo.Allocate | subsys/base/src/fd_object_fifo.c:42-53 | the slot behind the last object, unless one is allocated or none is free |
| ObjectFifo.Fifo.Commit | subsys/base/src/fd_object_fifo.c:67-75 | the filled slot becomes the newest object |
| ObjectFifo.Fifo.View | subsys/base/src/fd_object_fifo.c:79-86 | the n-th object, if there is one |
| ObjectFifo.Fifo.Deallocate | subsys/base/src/fd_object_fifo.c:89-100 | the oldest object is gone |
| ObjectFifoRuns.StepKeeps | subsys/base/src/fd_object_fifo.c:23-100 | every single read and write of either thread keeps the invariant |
| ObjectFifoRuns.EveryRun | subsys/base/src/fd_object_fifo.c:23-100 | in every interleaving the fifo is a bounded queue, the slot being filled overlaps no committed object, and the consumer sees exactly the committed objects |
| ObjectFifoRuns.RefusedOnlyWhenFull | subsys/base/src/fd_object_fifo.c:35-53 | allocation is refused exactly when the fifo was full as the head was read |
| ObjectFifoRuns.ViewedOnlyWhenCommitted | subsys/base/src/fd_object_fifo.c:79-86 | viewing is refused exactly when there were too few objects as the tail was read |
| BitPacker.BitEncoder.Write | api/python/delta.py:38-50 | appends exactly the bits of the value, or raises when it does not fit |
| BitPacker.BitEncoder.Finalize | api/python/delta.py:52-57 | the bytes hold the bits written |
| BitPacker.BitDecoder.Read | api/python/delta.py:8-28 | the number of the next bits, or an exception when there are too few |
| BitPackerC.KeptWhenItFits | subsys/base/src/fd_bit.c:50-51 | the bits of a value survive the register if and only if it fits beside what is waiting |
| BitPackerC.NarrowFieldsAreKept | subsys/base/src/fd_bit.c:50-51 | in particular when offset and width are at most 32 together |
| BitPackerC.WideFieldIsLost | subsys/base/src/fd_bit.c:50-51 | a 32-bit field behind one bit loses its top |
| BitPackerC.Encoder.Write | subsys/base/src/fd_bit.c:44-60 | appends what the register keeps of the value, or remembers the overflow |
| BitPackerC.Encoder.Finalize | subsys/base/src/fd_bit.c:62-69 | the bytes hold the bits written |
| Delta.ZigzagIsABijection | api/python/delta.py:67-72 | zigzag and its inverse undo each other both ways |
| Delta.ResolutionIsLeast | api/python/delta.py:63-64 | a number fits a width exactly when its resolution is at most that |
| Delta.GetDeltaResolution | api/python/delta.py:75-86 | the least width that all differences fit |
| Delta.ValuesRoundTrip | api/python/delta.py:89-116 | a channel reads back exactly and leaves the rest of the bits |
| Delta.EncodeValues | api/python/delta.py:89-99 | appends the channel's bits, or raises when a field does not fit |
| Delta.DecodeValues | api/python/delta.py:102-116 | reads a channel, or raises when there are too few bits |
| DeltaC.WordsZigzag | subsys/base/src/fd_delta.c:15-21 | on 32 bits the shifts and masks are the zigzag of numbers, in both directions |
| DeltaC.GetWordDeltaResolution | subsys/base/src/fd_delta.c:58-72 | the least width that all wrapped differences fit, never more than 32 |
| DeltaC.WordsRoundTrip | subsys/base/src/fd_delta.c:74-108 | every array of 32-bit values whose fields fit is read back exactly, differences that wrap around included |
| DeltaC.EncodeWords | subsys/base/src/fd_delta.c:74-89 | appends the bits of every field, wherever the fields stay within the register, and fails exactly when the buffer is short |
| DeltaC.DecodeWords | subsys/base/src/fd_delta.c:91-108 | reads the array, or fails when there are too few bits |
| DeltaC.PackAndUnpack | subsys/base/src/fd_delta.c:74-108 | through the bytes of a buffer of any size: the same array, or a refusal exactly when it does not fit |
| DeltaC.UpTo25BitsStayNarrow | subsys/base/src/fd_bit.c:50-51 | fields of up to 25 bits stay within the register wherever they fall |
| Sensing.DatasetRoundTrip | api/python/delta.py:128-166 | every regular dataset that encodes is read back exactly, and every bit written is consumed |
| Sensing.EncodeDataset | api/python/delta.py:153-166 | appends the dataset's bits, or raises |
| Sensing.DecodeDataset | api/python/delta.py:129-150 | reads a dataset, or raises |
| Sensing.PackAndUnpack | api/python/delta.py:128-166 | through the bytes: packed, finalized and unpacked, the dataset is the same |
| Calendar.NLeapCounts | subsys/base/src/fd_calendar.c:9-11 | the formula counts the leap years from 1970 |
| Calendar.MonthsAddUp | subsys/base/src/fd_calendar.c:14-101 | the two tables of month lengths agree and fill the year |
| Calendar.WeekDayExactly | subsys/base/src/fd_calendar.c:119 | the 32-bit week day is right if and only if the day is not one of the last four |
| Calendar.LastWeekDays | subsys/base/src/fd_calendar.c:119 | what it is on those four |
| Calendar.TimeOfDate | subsys/base/src/fd_calendar.c:33-56 | the time counts days and seconds of the date if and only if the day number has 32 bits |
| Calendar.LeapDayOf2000 | subsys/base/src/fd_calendar.c:33-56 | 951827696 is 12:34:56 on the leap day of 2000, a Tuesday |
| Calendar.ToTimeIsInjective | subsys/base/src/fd_calendar.c:33-56 | no two dates with day numbers of 32 bits have one time |
| Calendar.FindMonth | subsys/base/src/fd_calendar.c:126-132 | the month loop ends by December |
| Calendar.FromTime | subsys/base/src/fd_calendar.c:103-135 | for every time before the last four days of the 32-bit range, the one date with that time |
| Calendar.ThereAndBack | subsys/base/src/fd_calendar.c:33-135 | from a date before those days to its time and back is the date |
| I2cBus.MsbRoundTrip | subsys/base/src/fd_i2cm_bitbang.c:63-86 | the bits shifted out make the byte again |
| I2cBus.TokenizeSymbols | subsys/base/src/fd_i2cm_bitbang.c:63-86 | the symbols of STARTs, STOPs and acknowledged bytes are read back as those |
| I2cMaster.Bus.StartCondition | subsys/base/src/fd_i2cm_bitbang.c:26-34 | an observer sees one START, first or repeated, and a STOP before it exactly if the data line was down |
| I2cMaster.Bus.StopCondition | subsys/base/src/fd_i2cm_bitbang.c:36-43 | an observer sees one STOP and a free bus |
| I2cMaster.Bus.WriteByte | subsys/base/src/fd_i2cm_bitbang.c:63-74 | an observer sees the byte and the slave's acknowledgement |
| I2cMaster.Bus.ReadByte | subsys/base/src/fd_i2cm_bitbang.c:76-86 | the slave's byte, and the master's acknowledgement |
| I2cMaster.Bus.DeviceIo | subsys/base/src/fd_i2cm_bitbang.c:114-153 | for any transfers, the STARTs and STOPs seen and between them address, direction, data and acknowledgements in order, up to the first byte not acknowledged |
| I2cMaster.Exchange | subsys/base/src/fd_i2cm_bitbang.c:114-153 | sampling the trace of the lines reads back exactly that |
| I2cMaster.UnintendedStopExactly | subsys/base/src/fd_i2cm_bitbang.c:114-153 | a STOP is seen before the last one if and only if the exchange comes to a write behind reads of no bytes behind a read |
| I2cMaster.StopBeforeWrite | subsys/base/src/fd_i2cm_bitbang.c:114-153 | a read of one byte, one of none and a write show it |
| I2cMaster.AddressByBits | subsys/base/src/fd_i2cm_bitbang.c:103-111 | seven bits of address, and the direction in the lowest bit |
| I2cMaster.TransferIsAddressed | subsys/base/src/fd_i2cm_bitbang.c:114-153 | a transfer in a new direction, and no other, starts with a START and that byte |
| I2cMaster.RxByBytes | subsys/base/src/fd_i2cm_bitbang.c:97-101 | of the bytes that are read, only the last before a write or the STOP is not acknowledged |
| I2cMaster.TxByBytes | subsys/base/src/fd_i2cm_bitbang.c:88-96 | the bytes go out as they are, up to the first that is not acknowledged |
| I2cMaster.RefusalIsLast | subsys/base/src/fd_i2cm_bitbang.c:114-153 | an exchange that is not acknowledged ends with the byte that was not |

## Left out

- Eval.Calculate: operator meanings, the reading of numbers, the literal `false`, which the C code evaluates to true, and floating point are a parameter; how deep the C stack is.
- ReliableStream.Stream.ReceiveMessage: connect requests and responses, whose configuration is a protobuf message, are ignored.
- ReliableStream.EveryRunKeeps: one session from connected ends to the first disconnect, with numbers below 2^31; connect commands, packets left over from an earlier session, sockets, threads and clocks are not modelled, timers are free choices. The network loses, repeats and reorders.
- AesBuffer.Context.CbcEncryptBuffer: whole blocks only, since the C code reads and writes beyond other lengths.
- AesBuffer.Context.CbcDecryptBuffer: whole blocks only, for the same reason.
- AesBuffer.Context.DecryptUpdate: whole blocks and at least one, for the same reason.
- Sha1Stream.Context.Update: lengths whose sum with the bytes waiting does not fit 32 bits, on which `SumWraps` shows the C code to fail.
- Sha1Block.Transform: the unrolled macros are loops over the same steps.
- BootLoader.Loader.GetUpdateMetadata: update storage starts at address 0 and the update is encrypted; the path for plain updates is unfinished in the C code and counts as an error here.
- BootLoader.Loader.Update: that the image fits in flash is required, since the C code does not check it; reads outside a memory are errors of the reader; hash and cipher contexts are fresh for each use instead of the C code's static ones; the metadata offset leaves room for 300 bytes below 2^32.
- BootLoader.Loader.Install: likewise, and for a length that agrees with the update, which the check before it makes sure of.
- BootLoader.Loader.DecryptRange: lengths of whole cipher blocks; its only call asks for 128 bytes.
- BootReader.CheckHash: a zeroed window that does not lie before the range, which none of its calls asks for.
- BootVerdicts.AcceptedIsExecutable: where the executable's extent does not wrap around the address space and its hash field lies in one piece.
- Package.PackageExecutable: data that the checks before it have let through.
- Package.PackageUpdate: a metadata block whose hash field is still zero, as its only caller makes it.
- Package.PackageAll: loading the executable from a file, mocks and writing C code are not modelled; `os.urandom` is any bytes.
- SplitBoot.ReadOverTheLink: reads of at most 256 bytes, since the controller does not check its response buffer; the boot loader asks for at most 76.
- SplitBoot.OperationOverTheLink: the same.
- SplitUpdate.ControllerUpdates: storage that starts at address 0 and does not change while it is read; the error code behind a failure is not modelled.
- SplitBoot.UpdateOverTheLink: the link hands over whole messages (frames are the subject of `Gateway`) and nothing times out; reads are at most 256 bytes, since the controller does not check its response buffer; that a response answers another kind of operation than the pending one is only shown not to occur; the two ends are values, not objects; identity, metadata and execute requests are not modelled.
- Cobs.EncodeInPlace: room for the result is required, since the C code ignores the size it is given.
- Envelope.EncodeMessage: a payload that leaves room for the trailer, since the C code goes on to stuff a buffer that is already full.
- Gateway.Gateway.TransmitMessage: the buffer has one spare byte, which the C code uses without having it, exactly on the frames of `PayloadFits`.
- Gateway.Gateway.ProcessMessage: the same.
- Gateway.Gateway.MessageRx: the same; handlers and endpoints are a parameter; the table of endpoints is a set of targets.
- Binary.Buffer.GetVarUint: a shift by 64 or more, undefined in C, drops everything. Fixed-width numbers other than 8 and 16 bits, strings, removal and floating point add only easy members.
- ObjectFifoRuns.EveryRun: memory is sequentially consistent; flushing, which the C code does not make safe against the other thread, is not a step.
- BitPackerC.Encoder.Write: values of at most their width, which its assertion asks for, and widths from 1 to 32; the C decoder is the algorithm of `BitDecoder.Read`.
- BitPackerC.NarrowFieldsAreKept: the assertion's shift by 32, undefined in C, is not evaluated.
- DeltaC.EncodeWords: fields of four bytes that fit their widths, which its assertion asks for, and the register; beyond the register `KeptWhenItFits` says which bits are lost.
- DeltaC.WordsZigzag: doubling a signed number, undefined in C where it overflows, is taken to wrap around.
- DeltaC.GetWordDeltaResolution: so is the difference of two values.
- DeltaC.WordsRoundTrip: so are differences and sums.
- Sensing.EncodeDataset: protobuf messages are values, and their integers are unbounded.
- I2cMaster.Bus.DeviceIo: delays and pull-ups; a slave moves the data line only while the clock is low and does not stretch the clock.
- Calendar.FromTime: times before 1970, for which the C remainders are negative; overflow, undefined in C, is taken to wrap around.
- Hardware drivers, user interface, generated code, fd_work.c, fd_timer.c, fd_event.c, fd_animation.c and the device dispatchers are not modelled.
