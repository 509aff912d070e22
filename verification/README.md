# js400: a verified model

js400 is a JavaScript client for the host servers of IBM i. This project models the parts of it that
carry its hard guarantees and proves these guarantees with Dafny:
`dafny verify dfyconfig.toml` checks the whole project.

Each module follows one source file. Code that changes state in place is modelled by methods over
arrays and class fields, each proved against a specification function; what the source promises is
then proved about these functions for all inputs, all interleavings or all operation sequences.

## What is modelled, and the main results

- **The request/reply channel** (`Channel.dfy`, `ChannelRequests.dfy`, `ChannelReplies.dfy`,
  `ChannelLiveness.dfy`, `Connection.dfy`, `DataStream.dfy`). The promise-chain
  lock of `withLock`, the socket, and a server that answers in order form a transition system. In every
  run at most one body is under way, callers get the lock in calling order, and no reply byte is lost or
  reordered. What a caller sends is what its body says: the requests sent, followed by those its body has still to
  send, are those of the body it entered with. If every body receives what it sends for, each caller gets its own replies; without that
  assumption, every caller gets only its own replies in a run if and only if no body releases the lock with a
  reply of its own unread and a further receive follows (with a concrete run in which one does). Every
  run of the steps that remain comes to an end, and every scheduler, fair or not, finishes all calls
  with balanced bodies; a body that re-enters never finishes. `readFrame` returns exactly the frames
  sent, in order, however their bytes are split into chunks, and of a stream that ends early it
  returns all frames if and only if the chunks are together as long as the frames.
- **Password encryption** (`DesSpec.dfy`, `DesTheorems.dfy`, `DesFunction.dfy`, `PasswordEncrypt.dfy`,
  `DesKnownAnswer.dfy`, `PasswordSubstitute.dfy`). `DesSpec` writes the Data Encryption Standard out from FIPS 46-3. The
  source's bit-per-byte code, with its in-place rotations, is proved to compute it. Deciphering inverts
  enciphering for any round keys and any number of rounds; enciphering is a bijection for each key;
  complementing key and data complements the result; parity bits do not matter. The cipher function is
  pinned down position by position with the positions and entries the standard prints, and one block is
  enciphered round by round to the known answer. A token of either length deciphers back to the folded user ID. The password substitute
  is a cipher block chaining code over five blocks, unwinds block by block under the token, and is an injective
  function of the client seed.
- **The LL/CP codec** (`Llcp.dfy`, `ServerStart.dfy`). Building and parsing undo each other for every item list;
  on any buffer the parser returns exactly the longest well-formed chain; the second scanner finds the
  first matching item of the same chain; a start-server request parses back to its options, and its bytes lie at
  the offsets and have the codes written out.
- **Decoders** (`ConvTable.dfy`, `Xml.dfy`, `XmlTheorems.dfy`, `QsysPath.dfy`). The run-length
  decompressor is characterised on every word sequence and on token lists, unit by unit; strings
  survive a code page exactly when each character does. The XML parser terminates on every input, and
  reads back, with any indentation, spacing of attributes, quotes and entities, exactly the documents without a hidden
  closing tag (below). Parsing a built QSYS path returns its components exactly when no name
  is the percent form of a special value.
- **Decimals** (`Digits.dfy`, `Decimals.dfy`, `DecimalTheorems.dfy`, `DecimalFields.dfy`, and the
  `DecFloat*.dfy` files). Zoned and packed fields hold the scaled value modulo a power of ten; packed
  fields with an even number of digits repeat the last digit, and are right only for zero.
  A decimal floating point number written with sign, point and exponent is read as the number it denotes and
  given back exactly under a condition stated on its digits and exponent: the source's declet table lets some triples overwrite others (1099 comes back as 1891).
- **Records** (`DataTypes.dfy`, `DataTypeTheorems.dfy`, `Record.dfy`). Structures and arrays nested to any
  depth round-trip at any offset; a record refines a map from field names to values or null over every
  sequence of operations, failing ones included.

`Bytes.dfy`, `Text.dfy` and `Outcome.dfy` hold what the components share: big-endian integers and bits,
string search and trimming, optional values and errors.

## Where the code differs from its description

- `AS400PackedDecimal` writes the last digit twice when the number of digits is even
  (`DecimalTheorems.PackedRightIff`).
- The declet table of `AS400DecFloat` is not the one of IEEE 754-2008 in three rows: digit triples share codes, and
  the smaller one is lost (`DecFloatTables.ComesBackIff`); a declet says its digits to the standard
  exactly when the last digit is below 8 or the other two are (`DecFloatTables.StandardIff`). A leading digit of 8
  or 9 puts the exponent two bits lower than the standard does (`DecFloatTheorems.StandardFrontIff`) and starts the declets
  two bits late, so the last one loses two bits to whatever follows the field, and a coefficient
  longer than the precision is cut without adjusting the exponent (`DecFloatTheorems.RoundTripIff`).
- `ConvTable` never encodes to byte 0 (`ConvTables.StringRoundTripIff`).
- A processing instruction or a `<!...>` declaration, with nothing but whitespace, comments and more of these behind
  it, right before a closing tag makes the XML parser read that tag as text
  (`XmlTheorems.InstructionSpoilsClosingTag`). A document is parsed to what it means if and only if this
  happens in none of its elements (`XmlTheorems.DocumentReadsBackIff`).
- `QSYSObjectPathName` keeps the small letters of a quoted name in the path it builds, but upper-cases them
  when it parses that path (`QsysPath.AssignedPathParsesIff`).
- `Record.setFieldNull` accepts a name the format does not have, and `getField` then returns null for it
  (`RecordTheorems.UnknownFieldCanBeNull`). After any operations an unknown name is the error it should
  be if and only if no such note stands (`RecordTheorems.UnknownNameIff`).

## Model

| member | source | states |
|---|---|---|
| Channel.RunKeepsInv | src/transport/Connection.js:139-186 | after every run, whatever the bodies do: the gates form one chain, all acquired callers but the last are done, and the bytes read, arrived and under way are exactly the unread replies |
| Channel.MutualExclusion | src/transport/Connection.js:175-186 | in every reachable state at most one caller is inside its body |
| Channel.ArrivalOrder | src/transport/Connection.js:175-180 | callers get past `await prev` in the order of their calls |
| Channel.ReleaseHandsOver | src/transport/Connection.js:181-185 | after a body returns or throws, the next caller in the queue can acquire |
| ChannelRequests.BodiesAreCarriedOut | src/transport/Connection.js:116-186 | in every run, with any bodies: what a caller has sent, followed by what its body has still to send, are the requests of the body it entered with, in order, and so for the number of replies received; all of them for one that returned, a first part for one that threw |
| ChannelRequests.SendAndReceiveSends | src/transport/Connection.js:155-160 | a returned call of `sendAndReceive` sent exactly its request and received one reply |
| ChannelReplies.SendAndReceiveIsBalanced | src/transport/Connection.js:155-160 | `sendAndReceive` receives exactly what it sends for |
| ChannelReplies.OwnReplies | src/transport/Connection.js:37-45 | in every interleaving of balanced callers and arriving chunks, the j-th received frame is the j-th reply and goes to the sender of the j-th request |
| ChannelReplies.OwnReplyIff | src/transport/Connection.js:139-160 | with arbitrary bodies: a completed receive yields a reply to the receiver's own request if and only if no reply to another caller is unread |
| ChannelReplies.AllOwnIff | src/transport/Connection.js:139-186 | over every run, with arbitrary bodies: all received frames are replies to requests of their receivers if and only if no body releases with a reply of its own unread before a further receive |
| ChannelReplies.ThrowLeavesReplyBehind | src/transport/Connection.js:181-185 | a body that throws with its reply unread releases the lock and leaves that reply in the stream |
| ChannelReplies.LeftBehindGoesAstray | src/transport/Connection.js:139-186 | a reply left behind is never received by its requester, in any continuation |
| ChannelReplies.ReplyCanGoAstray | src/transport/Connection.js:139-186 | a run in which caller 1 receives the reply to caller 0's request |
| ChannelLiveness.Progress | src/transport/Connection.js:175-186 | in every reachable state of balanced callers with an unfinished call some internal step is enabled |
| ChannelLiveness.RunLowersRank | src/transport/Connection.js:175-186 | every run of internal steps other than re-entry, whatever the bodies do, strictly lowers a well-founded rank, so none goes on forever |
| ChannelLiveness.EveryScheduleFinishes | src/transport/Connection.js:175-186 | for balanced callers and every scheduler that picks possible internal steps, knowing all earlier ones: the run that follows it step by step ends with all calls done |
| ChannelLiveness.ReentryDeadlocks | src/transport/Connection.js:165-186 | from the step in which a body calls `withLock` itself: in no continuation does that body resume or the nested call start |
| Connection.Connection.WithLock | src/transport/Connection.js:175-180 | a call takes the current gate as predecessor, installs its own, and keeps the invariant: the step `Enter` of the transition system |
| Connection.Connection.Acquire | src/transport/Connection.js:180-182 | the body starts once its predecessor is done: the step `Acquire` |
| Connection.Connection.Send | src/transport/Connection.js:116-131 | fails when not connected, otherwise the step `Transmit` |
| Connection.Connection.Receive | src/transport/Connection.js:139-144 | fails without a connected socket; otherwise hands bytes to the frame being read: the step `Read`, and the frame once it is complete |
| Connection.Connection.Release | src/transport/Connection.js:181-185 | the gate of a body that returned or threw is resolved: the steps `Return` and `Throw` |
| DataStream.HeaderRoundTrip | src/transport/DataStream.js:133-148 | a header written anywhere in a buffer is parsed back field by field |
| DataStream.HeaderNumbers | src/transport/DataStream.js:57-93 | at the offsets written out, each header field is the number its bytes denote, most significant first |
| DataStream.FrameIff | src/transport/DataStream.js:202-227 | a frame is at least twenty bytes long, and exactly as long as its first four bytes denote |
| DataStream.BuildPacket | src/transport/DataStream.js:57-93 | a packet is the header, a zeroed template and the payload, cut or zero-filled to the total length, or an error when a field does not fit |
| DataStream.PacketStands | src/transport/DataStream.js:57-93 | byte by byte: the header, zeros as long as the template, the payload, and zeros up to the total length |
| DataStream.Readable.ReadExact | src/transport/DataStream.js:235-298 | over any chunks, null reads and short reads included: exactly n bytes off the front of the stream, or the error that it ended |
| DataStream.Readable.ReadFrame | src/transport/DataStream.js:202-227 | one frame as the specification reads it, with the error for a total length below the header length |
| DataStream.FrameIgnoresChunking | src/transport/DataStream.js:202-298 | two ways of splitting the same bytes give the same frame or the same error and leave the same bytes |
| DataStream.FrameAtFront | src/transport/DataStream.js:202-227 | a frame at the front of the stream is returned whole and nothing behind it is consumed |
| DataStream.FrameCutShort | src/transport/DataStream.js:202-298 | a stream that ends inside a frame fails with the error that it ended |
| DataStream.FramesInOrder | src/transport/DataStream.js:202-298 | for every list of frames and every splitting of their bytes into chunks, successive reads return exactly these frames in order and consume not one byte more |
| DataStream.AllFramesArriveIff | src/transport/DataStream.js:202-298 | from a stream that may end anywhere, frames are returned as sent, and all of them if and only if the chunks are together at least as long |
| DesTheorems.TablesAreInverse | src/auth/password-encrypt.js:536-548 | `OUTPERM` undoes `INITPERM` and conversely |
| DesTheorems.FeistelInverts | src/auth/password-encrypt.js:601-757 | the rounds run with reversed round keys give back the swapped halves, for any keys and any number of rounds |
| DesTheorems.DecipherInverts | src/auth/password-encrypt.js:601-757 | deciphering with the reversed key schedule undoes enciphering, and conversely, for every key and block |
| DesTheorems.Complementation | src/auth/password-encrypt.js:529-690 | complementing key and block complements the enciphered block |
| DesTheorems.ParityIgnored | src/auth/password-encrypt.js:556-561 | keys that agree outside the low bit of each byte have the same round keys, and encipher every block alike |
| DesFunction.CipherFunctionIs | src/auth/password-encrypt.js:690-757 | for each box, the four positions of the cipher function that FIPS 46-3 gives it hold the entry in the row and column of its six inputs, all positions written out |
| DesFunction.KeyBitsReach | src/auth/password-encrypt.js:690-757 | round keys that agree outside the six bits of a box give results that agree outside its four positions, for the first box 9, 17, 23 and 31 |
| DesFunction.FirstBox | src/auth/password-encrypt.js:572 | box 1 holds the four rows the standard prints, one hexadecimal digit an entry |
| DesFunction.SecondBox | src/auth/password-encrypt.js:574 | box 2 holds the four rows the standard prints, one hexadecimal digit an entry |
| DesFunction.ThirdBox | src/auth/password-encrypt.js:576 | box 3 holds the four rows the standard prints, one hexadecimal digit an entry |
| DesFunction.FourthBox | src/auth/password-encrypt.js:578 | box 4 holds the four rows the standard prints, one hexadecimal digit an entry |
| DesFunction.FifthBox | src/auth/password-encrypt.js:580 | box 5 holds the four rows the standard prints, one hexadecimal digit an entry |
| DesFunction.SixthBox | src/auth/password-encrypt.js:582 | box 6 holds the four rows the standard prints, one hexadecimal digit an entry |
| DesFunction.SeventhBox | src/auth/password-encrypt.js:584 | box 7 holds the four rows the standard prints, one hexadecimal digit an entry |
| DesFunction.EighthBox | src/auth/password-encrypt.js:586 | box 8 holds the four rows the standard prints, one hexadecimal digit an entry |
| PasswordEncrypt.EncipherIsBijection | src/auth/password-encrypt.js:601-757 | on byte blocks, enciphering and deciphering undo each other both ways |
| PasswordEncrypt.Lshift1 | src/auth/password-encrypt.js:759-766 | rotates both halves of the register left by one, in place |
| PasswordEncrypt.Lshift2 | src/auth/password-encrypt.js:768-779 | rotates both halves of the register left by two, in place |
| PasswordEncrypt.RotationsCompose | src/auth/password-encrypt.js:759-779 | rotating by j and then k is rotating by their sum; shifting by two is shifting by one twice |
| PasswordEncrypt.FullTurn | src/auth/password-encrypt.js:589-590 | after the sixteenth round the register is back at its initial value |
| PasswordEncrypt.GenerateSubkeys | src/auth/password-encrypt.js:601-688 | the key of round r is PC2 of both halves of the PC1 selection rotated by the sum of the first r shifts |
| PasswordEncrypt.SubstituteBits | src/auth/password-encrypt.js:690-757 | the assembled box indices and spread entries are the S-box substitution of FIPS 46-3 |
| PasswordEncrypt.Cipher | src/auth/password-encrypt.js:690-757 | one round in place: the left half becomes the old right half, the right half the old left mixed with the cipher function |
| PasswordEncrypt.RunRounds | src/auth/password-encrypt.js:601-688 | sixteen rounds over the two half arrays are the sixteen Feistel rounds of the specification |
| PasswordEncrypt.EncDes | src/auth/password-encrypt.js:601-688 | the returned bytes are the block enciphered by the standard under the key |
| DesKnownAnswer.KeyAt | src/auth/password-encrypt.js:601-688 | the sixteen round keys of the key 133457799BBCDFF1 |
| DesKnownAnswer.RoundAt | src/auth/password-encrypt.js:690-757 | the halves of the block 0123456789ABCDEF after each of the sixteen rounds under these keys |
| DesKnownAnswer.KnownAnswer | src/auth/password-encrypt.js:601-757 | the block 0123456789ABCDEF is enciphered under the key 133457799BBCDFF1 to 85E813540F0AB405 |
| PasswordSubstitute.AddColumnsModulo | src/auth/password-encrypt.js:428-435 | column addition with carry is big-endian addition modulo 256^length, for any length |
| PasswordSubstitute.AddArrays | src/auth/password-encrypt.js:428-435 | the result array holds the column sum of the two operands |
| PasswordSubstitute.ShiftLeftDoubles | src/auth/password-encrypt.js:437-443 | shifting eight bytes left by one bit doubles the number modulo 2^64 |
| PasswordSubstitute.XorWith0x55AndLshift | src/auth/password-encrypt.js:437-443 | the first eight bytes are masked with 0x55 and shifted left, the rest untouched |
| PasswordSubstitute.GenerateToken | src/auth/password-encrypt.js:445-489 | the user ID, folded when longer than eight bytes, enciphered under the password; two halves for long passwords |
| PasswordSubstitute.TokenRevealsUser | src/auth/password-encrypt.js:445-489 | for a fixed password of at most eight bytes, the token determines the folded user ID |
| PasswordSubstitute.LongTokenRevealsUser | src/auth/password-encrypt.js:463-481 | for a password of nine or ten bytes, the token, exclusive-ored with the user ID enciphered under either half of the password, deciphers under the other half to the folded user ID |
| PasswordSubstitute.PasswordKeyBits | src/auth/password-encrypt.js:437-443 | each bit of the key a password makes, by its position |
| PasswordSubstitute.FoldedBits | src/auth/password-encrypt.js:445-461 | each bit of the folded user ID: the two last bytes are spread over the top bits of the first eight exactly when the user ID is longer than eight bytes |
| PasswordSubstitute.TopBitsIgnored | src/auth/password-encrypt.js:437-489 | passwords that agree outside the top bits of their bytes make the same round keys |
| PasswordSubstitute.GeneratePasswordSubstitute | src/auth/password-encrypt.js:491-525 | the result is the zero-start cipher block chaining code of the five blocks |
| PasswordSubstitute.CbcFromInjective | src/auth/password-encrypt.js:491-525 | for fixed blocks, the chaining code is an injective function of the chaining value |
| PasswordSubstitute.CbcOneBlockInjective | src/auth/password-encrypt.js:491-525 | the chaining code is an injective function of any one of its blocks |
| PasswordSubstitute.ClientSeedDetermined | src/auth/password-encrypt.js:491-525 | with everything else fixed, different client seeds give different substitutes |
| PasswordSubstitute.SubstituteUnwinds | src/auth/password-encrypt.js:491-525 | the server's view: deciphering under the token and taking off sequence number, user ID, seeds and padding block by block leads back to the sum of server seed and sequence number |
| Llcp.ChainIsSlices | src/transport/ReplyParser.js:50-79 | on any buffer the parsed items are consecutive disjoint slices inside the bounds, and no further item follows |
| Llcp.ChainIsLongest | src/transport/ReplyParser.js:50-79 | any well-formed items standing at the start are the first items parsed: the chain is maximal |
| Llcp.Parse | src/transport/ReplyParser.js:32-82 | fails exactly on the two length checks, otherwise returns header, template and the items grouped by code point in order |
| Llcp.ParsesUnique | src/transport/ReplyParser.js:32-82 | a buffer has only one parse |
| Llcp.RequestBuilder.AddLLCPWithCCSID | src/transport/RequestBuilder.js:127-133 | appends the item whose data starts with the CCSID, or fails when it does not fit 32 bits |
| Llcp.RequestBuilder.Build | src/transport/RequestBuilder.js:139-179 | succeeds exactly when every field fits its width, and then yields header, template and items one behind the other |
| Llcp.ItemNumbers | src/transport/RequestBuilder.js:160-175 | an item starts with four bytes that denote its own length and two that denote its code point, and then holds its data |
| Llcp.RoundTrip | src/transport/RequestBuilder.js:139-179 | a built datastream, whatever follows it, parses back to the same header, template and data by code point in insertion order |
| ServerStart.FindCodePoint | src/transport/ServerStart.js:234-244 | the scanner returns the offset of the first matching item of the chain, or -1 |
| ServerStart.FirstOffsetIsFirst | src/transport/ServerStart.js:234-244 | -1 exactly when the chain holds no such item, otherwise the first match |
| ServerStart.ScannersAgreeIff | src/transport/ServerStart.js:234-244 | the parser, bounded by the total length, has a code point exactly when the item the search finds lies within that bound, and then both see the same data |
| ServerStart.BuildRequest | src/transport/ServerStart.js:64-156 | the request is the fixed header, the scheme byte and the items its options call for |
| ServerStart.RequestParsesBack | src/transport/ServerStart.js:64-156 | parsing a built request returns its header, template and items |
| ServerStart.RequestFront | src/transport/ServerStart.js:64-156 | by offset: total length, server, template length, request number, the scheme's byte, and the first item with its code point and the credentials |
| ServerStart.PasswordItems | src/transport/ServerStart.js:64-156 | the items of a complete password request, with the code points written out |
| ServerStart.ProfileTokenItems | src/transport/ServerStart.js:64-156 | the items of a complete profile token request, with the code points written out |
| ServerStart.ParseReply | src/transport/ServerStart.js:164-210 | too short, refused with its return code, or the two texts of the reply's chain |
| ServerStart.ReplyTextsFound | src/transport/ServerStart.js:172-194 | in a reply with any items, the text found for a code point is the one behind the CCSID of its first item, unless that is empty |
| ServerStart.ReplyTextMissingIff | src/transport/ServerStart.js:172-194 | no text is found for a code point exactly when no item has it or the first that has it holds no text |
| ConvTables.DecompressSB | src/ccsid/ConvTable.js:122-194 | on every word sequence, truncated ones included, the loop ends with the expansion cut at, or filled up to, the table's end |
| ConvTables.WordsReadBack | src/ccsid/ConvTable.js:129-187 | the words of a token that fits are read back as that token whatever follows: the escapes with 0xFEFE are unambiguous |
| ConvTables.DecompressesTokens | src/ccsid/ConvTable.js:122-194 | the words of every token list that fits expand to exactly its meaning, and their table is exactly these bytes and then 0x3F |
| ConvTables.HighBytesMean | src/ccsid/ConvTable.js:160-187 | a high-byte run means its first unit and then, for each byte of its words in order, the unit with the run's high byte and that low byte |
| ConvTables.RangeMeans | src/ccsid/ConvTable.js:145-158 | unit k of a range is its start plus k, modulo 2^16 |
| ConvTables.RunMeans | src/ccsid/ConvTable.js:129-144 | every unit of a run is the repeated one, and there are as many as it counts |
| ConvTables.HighByteRunExample | src/ccsid/ConvTable.js:160-187 | the words 0000 0001 4100 1234 expand to 4100 4112 4134 |
| ConvTables.EscapesExample | src/ccsid/ConvTable.js:129-158 | a run, a range and the three escaped markers, as words |
| ConvTables.PutUnit | src/ccsid/ConvTable.js:132-187 | a unit is written high byte first, ignored past the end, and the cursor stays even |
| ConvTables.BuildReverse | src/ccsid/ConvTable.js:41-49 | a reverse map in which the last byte of a character wins and U+FFFD and U+001A are never entered |
| ConvTables.ConvTable.constructor | src/ccsid/ConvTable.js:22-50 | the forward table padded with zeros, and the reverse table decompressed or built from it |
| ConvTables.ConvTable.ByteArrayToString | src/ccsid/ConvTable.js:61-89 | direct and chunked decoding are the pointwise map, at every length |
| ConvTables.ConvTable.StringToByteArray | src/ccsid/ConvTable.js:91-99 | the pointwise encoding, never byte 0 |
| ConvTables.ConvTable.StringToByteArrayInto | src/ccsid/ConvTable.js:113-120 | exactly the fitting prefix of the full encoding is written and nothing else |
| ConvTables.UnitRoundTripIff | src/ccsid/ConvTable.js:41-97 | a character comes back exactly when it is the one of 0x3F, or is enterable and has a byte other than 0 |
| ConvTables.StringRoundTripIff | src/ccsid/ConvTable.js:41-99 | decoding the encoding gives the string back exactly when each character comes back |
| ConvTables.Utf16ToString | src/ccsid/ConvTable.js:224-248 | direct and chunked UTF-16 decoding are the pointwise map |
| ConvTables.Utf16RoundTrip | src/ccsid/ConvTable.js:224-258 | every sequence of code units comes back, wherever its bytes stand |
| ConvTables.Utf16Denotes | src/ccsid/ConvTable.js:250-258 | each code unit is the number its two bytes denote, most significant first |
| XmlSpec.ParseElement | src/pcml/xml.js:79-179 | parsing never moves back and passes an opening angle bracket: the mutual recursion terminates on every string |
| XmlSpec.SkipProlog | src/pcml/xml.js:83-113 | each comment, instruction, declaration or CDATA section moves forward |
| Xml.Parser.ParseAttributes | src/pcml/xml.js:48-77 | the loop yields the attributes and the position of the specification |
| Xml.Parser.ParseElement | src/pcml/xml.js:79-179 | element and shared position are those of the specification; the recursion terminates |
| Xml.Parser.ParseContent | src/pcml/xml.js:145-178 | children, text and position of the loop are those of the specification |
| Xml.ParseXml | src/pcml/xml.js:26-187 | for every input the root element of the specification, or the error that there is none |
| XmlTheorems.AttributesReadBack | src/pcml/xml.js:48-77 | attributes written with any whitespace, quotes and entities are read back in order, a later value replacing an earlier one; a name without a value is skipped |
| XmlTheorems.NodeParses | src/pcml/xml.js:79-179 | wherever a plain element stands, it is parsed to its meaning and to the position right behind it if and only if no closing tag in it is hidden by an instruction or a declaration |
| XmlTheorems.DocumentReadsBackIff | src/pcml/xml.js:26-187 | every plain document with elements, text, entities, whitespace, CDATA sections, comments, instructions and declarations is parsed to its meaning, whatever follows it, if and only if no element has an instruction or a declaration among the skipped nodes right before its closing tag |
| XmlTheorems.InstructionSpoilsClosingTag | src/pcml/xml.js:98-120 | an element that holds one instruction means no text but is parsed with the rest of its closing tag as its text |
| QsysPath.ToQSYSName | src/ifs/QSYSObjectPathName.js:62-79 | upper-cases outside quotes and drops the quotes |
| QsysPath.UnquotedIsUpper | src/ifs/QSYSObjectPathName.js:62-79 | without quotes both branches agree |
| QsysPath.LibraryComesBackIff | src/ifs/QSYSObjectPathName.js:25-39 | a library name survives its path form exactly when it is not itself such a form |
| QsysPath.MemberComesBackIff | src/ifs/QSYSObjectPathName.js:41-55 | a member name survives its path form exactly when it is not itself such a form |
| QsysPath.SpecialValues | src/ifs/QSYSObjectPathName.js:25-55 | the special values of libraries, objects and members with their path forms, both ways |
| QsysPath.PathNameIs | src/ifs/QSYSObjectPathName.js:25-55 | a path form is the name itself, or that of a special value with percent signs for its star |
| QsysPath.PathsAre | src/ifs/QSYSObjectPathName.js:94-118 | the path of a member and of another object, in a library or in QSYS, with and without an auxiliary storage pool, written out |
| QsysPath.QSYSObjectPathName.Assign | src/ifs/QSYSObjectPathName.js:139-194 | the constructor with three, four or five components fails exactly on a length or type violation, and otherwise stores the folded names and the built path |
| QsysPath.AssignedPathParsesIff | src/ifs/QSYSObjectPathName.js:139-194 | the path of an object so constructed, from quoted names too, parses back to its fields exactly when they have no small letters, none is the percent form of a special value, and the type MBR comes with a member |
| QsysPath.QSYSObjectPathName.Parse | src/ifs/QSYSObjectPathName.js:270-346 | the parsing steps over the fields follow the specification, error cases included |
| QsysPath.BuiltPathParses | src/ifs/QSYSObjectPathName.js:94-118 | parsing a built path returns every name as its path form stands for it |
| QsysPath.RoundTripIff | src/ifs/QSYSObjectPathName.js:94-118 | the components come back exactly when no name is the percent form of a special value; the rebuilt path is always the same |
| QsysPath.SystemLibraryRoundTrip | src/ifs/QSYSObjectPathName.js:286-292 | the path of library QSYS itself round-trips |
| Decimals.ZonedToBuffer | src/datatypes/AS400ZonedDecimal.js:43-84 | one digit a byte, the sign in the last zone |
| Decimals.ZonedFromBuffer | src/datatypes/AS400ZonedDecimal.js:86-116 | the digits of the low nibbles printed with the sign of the last zone |
| Decimals.PackedToBuffer | src/datatypes/AS400PackedDecimal.js:41-94 | two digits a byte and the sign nibble, the last digit twice for even digit counts |
| Decimals.PackedFromBuffer | src/datatypes/AS400PackedDecimal.js:96-133 | the digits of all nibbles but the last printed with the sign of the last |
| DecimalTheorems.DigitsDenote | src/datatypes/AS400ZonedDecimal.js:48-71 | the digits written denote floor(|s| * 10^d) modulo 10^n, for every decimal string |
| DecimalTheorems.RenderPrintsValue | src/datatypes/AS400ZonedDecimal.js:101-115 | a digit string prints as the plain numeral of its value, zero unsigned |
| DecimalTheorems.ZonedRoundTrip | src/datatypes/AS400ZonedDecimal.js:43-116 | encode then decode, at any position, prints sign * (floor(|s| * 10^d) mod 10^n) / 10^d |
| DecimalTheorems.ZonesAre | src/datatypes/AS400ZonedDecimal.js:72-84 | every zone is 0xF, but the last one of a negative value 0xD; below it stands the digit |
| DecimalTheorems.HundredTwentyThree | src/datatypes/AS400PackedDecimal.js:72-94 | 123 and -123 as zoned and as packed bytes |
| DecimalTheorems.PackedRoundTrip | src/datatypes/AS400PackedDecimal.js:41-133 | encode then decode prints sign * (floor(|s| * 10^d) mod 10^n) / 10^d for odd n; for even n the printed value is ten times as large plus its last digit |
| DecimalTheorems.PackedRightIff | src/datatypes/AS400PackedDecimal.js:85-91 | a packed field gives its value back exactly when n is odd or the value is zero |
| DecimalFields.ZonedIsLawful | src/datatypes/AS400ZonedDecimal.js:43-116 | the zoned converter satisfies the laws the composite types need, at every offset |
| DecimalFields.PackedIsLawful | src/datatypes/AS400PackedDecimal.js:41-133 | the packed converter satisfies the laws the composite types need, at every offset |
| DecimalFields.ZonedTakesNumerals | src/datatypes/AS400ZonedDecimal.js:43-116 | zoned fields give back every numeral: the text of a number of up to n digits with d decimals |
| DecimalFields.PackedTakesNumerals | src/datatypes/AS400PackedDecimal.js:41-133 | packed fields give a numeral of up to n digits back exactly when n is odd or the value is zero |
| DecimalFields.EveryNumberHasNumeral | src/datatypes/AS400ZonedDecimal.js:101-115 | what the decoders print for a number of up to n digits is such a numeral |
| DecFloatTables.InitTables | src/datatypes/AS400DecFloat.js:20-29 | both tables: the declets of 0 to 999, and for each declet the last number with it |
| DecFloatTables.ComesBackIff | src/datatypes/AS400DecFloat.js:31-59 | exactly the triples no larger triple shares a declet with come back, as a condition on the three digits |
| DecFloatTables.NinetyNineTurnsInto891 | src/datatypes/AS400DecFloat.js:45-55 | 099 comes back as 891 |
| DecFloatTables.StandardIff | src/datatypes/AS400DecFloat.js:31-59 | read by IEEE 754-2008, a declet says the digits it was made of exactly when the last digit is below 8 or the other two are |
| DecFloatText.Format | src/datatypes/AS400DecFloat.js:280-302 | the loop and branches print coefficient and exponent in plain notation |
| DecFloatText.FormatDenotes | src/datatypes/AS400DecFloat.js:99-128 | for any digits and exponent, the printed text parses to the same sign and magnitude |
| DecFloatText.WrittenIsRead | src/datatypes/AS400DecFloat.js:99-128 | for every optional sign, digits, optional point and fraction, and optional exponent with its own sign: read with that sign and as ValueOf(whole + fraction) * 10^(x - |fraction|) |
| DecFloatText.ThousandthIsRead | src/datatypes/AS400DecFloat.js:110-113 | 1E-3 is read as the digit 1 with exponent -3 |
| DecFloatText.FormatIsWritten | src/datatypes/AS400DecFloat.js:280-302 | what the printer makes is such a text, without an exponent |
| DecFloatBits.PackTrailing | src/datatypes/AS400DecFloat.js:246-261 | the declets are or-ed in bit by bit from any offset, ignored past the end, and no other bit changes |
| DecFloatBits.UnpackTrailing | src/datatypes/AS400DecFloat.js:263-278 | the digits of the declets read from any bit offset |
| DecFloat.ToBuffer | src/datatypes/AS400DecFloat.js:80-90 | the field of a string: special values, or header bytes with the declets of the coefficient |
| DecFloat.FromBuffer | src/datatypes/AS400DecFloat.js:92-97 | the text of a field, in either width |
| DecFloatTheorems.HeaderReadsBack | src/datatypes/AS400DecFloat.js:143-181 | sign, leading digit and exponent are read back when the exponent fits, and a too large one is taken for a large digit or a special value |
| DecFloatTheorems.HeaderDenotes | src/datatypes/AS400DecFloat.js:143-181 | the front of a field as a number, with sign, exponent and leading digit in places written out |
| DecFloatTheorems.StandardFrontIff | src/datatypes/AS400DecFloat.js:143-181 | the front of a field is the one IEEE 754-2008 gives its sign, exponent and leading digit exactly when the leading digit is below 8, or is 8 with the lowest exponent |
| DecFloatTheorems.DecletStands | src/datatypes/AS400DecFloat.js:246-261 | each bit of each declet stands where it should behind the front, counted from bit 14 or 18, two later behind a digit of 8 or 9 |
| DecFloatTheorems.CodeReadsBack | src/datatypes/AS400DecFloat.js:246-278 | each declet is read back from its bits, the last one behind a digit of 8 or 9 with the two bits that follow the field |
| DecFloatTheorems.DigitsReadBackIff | src/datatypes/AS400DecFloat.js:246-278 | the trailing digits are read back exactly when every triple comes back |
| DecFloatTheorems.SameMagnitudeIff | src/datatypes/AS400DecFloat.js:132-186 | coefficients of one length with a leading digit denote the same magnitude only if digits and exponents agree |
| DecFloatTheorems.RoundTripIff | src/datatypes/AS400DecFloat.js:132-242 | for every numeric string and both widths: decode(encode(s)) denotes the same number exactly when it is preserved: the exponent fits, only zeros are cut, and every triple comes back |
| DecFloatTheorems.WrittenRoundTripIff | src/datatypes/AS400DecFloat.js:99-242 | from the pieces of a numeric text: decode(encode(text)) denotes its sign and ValueOf(whole + fraction) * 10^(x - |fraction|) exactly when that number is preserved |
| DecFloatTheorems.SmallDigitsComeBack | src/datatypes/AS400DecFloat.js:45-55 | every number that fits and has digits 0 to 7 only is preserved |
| DecFloatTheorems.SmallDigitsInRange | src/datatypes/AS400DecFloat.js:132-242 | every number with digits 0 to 7 only is preserved with up to 16 digits and an exponent from -398 to 369 in decimal64, or 34 digits and -6176 to 6111 in decimal128, the exponent taken at the last place |
| DecFloatTheorems.OneThousandNinetyNineIsLost | src/datatypes/AS400DecFloat.js:45-55 | 1099 fits both precision and exponent, and its field is decoded as 1891 |
| DecFloatTheorems.SpecialsRoundTrip | src/datatypes/AS400DecFloat.js:132-167 | infinities keep their sign and NaN stays NaN |
| DecFloatTheorems.SpecialFields | src/datatypes/AS400DecFloat.js:132-137 | infinities are 0x78 and 0xF8 with zeros behind, NaN is 0x7C with zeros behind |
| DataTypes.StructureToBuffer | src/datatypes/AS400Structure.js:41-58 | the loop over members with a running offset encodes as specified, missing values and errors included |
| DataTypes.StructureFromBuffer | src/datatypes/AS400Structure.js:60-70 | the loop over members decodes as specified |
| DataTypes.ArrayToBuffer | src/datatypes/AS400Array.js:38-51 | the loop over elements encodes as specified, short value lists included |
| DataTypes.ArrayFromBuffer | src/datatypes/AS400Array.js:53-62 | the loop over elements decodes as specified |
| DataTypeTheorems.EncodesFits | src/datatypes/AS400Structure.js:33-58 | a value of the type's shape is encoded into exactly the type's length |
| DataTypeTheorems.RoundTrip | src/datatypes/AS400Structure.js:33-70 | arbitrarily nested structures and arrays round-trip at any offset |
| DataTypeTheorems.DecodeIsLocal | src/datatypes/AS400Structure.js:60-70 | decoding looks at the type's own bytes only, wherever they stand |
| DataTypeTheorems.EncodingFills | src/datatypes/AS400Structure.js:33-58 | whatever is encoded, meant for the type or not, fills exactly the type's length |
| Record.RecordFormat.AddFieldDescription | src/record/RecordFormat.js:47-54 | offsets stay prefix sums and the index finds the last field of each folded name |
| Record.RecordFormat.GetFieldDescription | src/record/RecordFormat.js:61-67 | the field of the folded name, or the error |
| Record.Record.GetField | src/record/Record.js:60-65 | null, the decoded slice, or the error, as specified |
| Record.Record.SetField | src/record/Record.js:72-82 | notes a null where allowed; otherwise clears the note, then fails or overwrites the field's own slice |
| Record.Record.GetNullFieldMap | src/record/Record.js:167-177 | one byte a field, 0xF1 exactly for the null ones |
| Record.Record.ApplyNullFieldMap | src/record/Record.js:183-190 | the names of all bytes 0xF1 are added |
| RecordTheorems.WriteShows | src/record/Record.js:78-81 | writing any value that can be encoded changes what the field's own slice shows, to what its encoding decodes to, and no other |
| RecordTheorems.RunRefines | src/record/Record.js:60-99 | over every sequence of operations, with any values, each field shows the value last stored, or null |
| RecordTheorems.StoredIsValue | src/record/Record.js:72-82 | a value meant for the field's type is stored unaltered |
| RecordTheorems.RecordIsMap | src/record/Record.js:60-99 | `getField` after any operations, under any spelling, returns what the map of cells holds |
| RecordTheorems.UnknownNameIff | src/record/Record.js:60-99 | after any operations, a name the format lacks reads as null exactly when a null note for it stands that no later `setField` of a non-null value took back, and is the error of an unknown field otherwise |
| RecordTheorems.UnknownFieldCanBeNull | src/record/Record.js:97-99 | a name that is the error of an unknown field reads as null after `setFieldNull` |
| RecordTheorems.NullMapSays | src/record/Record.js:167-177 | the byte of a field is 0xF1 exactly if it is null and 0xF0 exactly if not |
| RecordTheorems.NullMapReproduces | src/record/Record.js:167-190 | the null map applied to a fresh record makes exactly the same fields null |

## Left out

- Sockets, TLS, connecting and reconnecting, timers, abort signals and tracing: input and output. Reading, sending and the arrival of bytes are steps or parameters.
- Write failures of `send`, bytes still read after the socket has closed, and a body that races a receive against a timer: the channel model has no step for them.
- The SHA-1, SHA-512 and PBKDF2 password schemes and random seeds: calls into libraries.
- `stringToEbcdic` and the composition in `encryptPasswordDES`: they would only add easy members.
- EncDes: its one long body is split into the helper methods `Expand`, `GenerateSubkeys`, `RunRounds`, `Finish` and their like, and repeated assignments are written as loops.
- FromBuffer of decimal floating point: the two decoders of the source are one method over the field's width.
- The correlation counter `nextCorrelation`: the correlation is a parameter of `BuildPacket`.
- Parse of replies: the buffer itself is not part of the result, and the order in which code points are first met is not kept.
- The hexadecimal text of conversion tables: the constructor takes the parsed words; the generated tables are arbitrary parameters.
- UTF-8 and binary conversion: calls into Node's buffers.
- ToQSYSName: upper-cases the letters a to z only, as do the field names of records; other letters stay as they are.
- Attributes: the attribute name `__proto__`, which JavaScript treats specially, is an ordinary name; entity replacement is a function parameter that is applied only where an ampersand occurs; that wrongly read text is kept relies on its leaving what stands before the first ampersand.
- Strings outside code page conversion are sequences of Unicode characters, not of UTF-16 code units.
- `QSYSObjectPathName` getters and static helpers: they only hand on the fields and the built path.
- ParseNumber: exponents are exact integers; the source loses precision from 2^53 on.
- Decimal values are strings; numbers that JavaScript prints with an exponent are not covered by the decimal string theorems.
- TextOf: the text of a list passed to a decimal converter.
- Scalar converters other than zoned and packed are arbitrary parameters of the composite types, taken to encode into their own length or fail, to give back what they accept, and to look at their own bytes only.
- `setContents`, `toObject`, `fromObject`, key fields and default values of records: thin sequences of the modelled operations.
- Database, file, program call and spooled file protocols: they build on the modelled parts.
