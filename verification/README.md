# TeaJS in Dafny

A model of the algorithms inside TeaJS and proofs of what they promise. The classes and methods
follow the library's objects and loops and are proved against functions on values; lemmas then prove
what these functions achieve.

- **WebSocket** (`WebSocketFrame`, `WebSocketConnection`, `WebSocketDelivery`, `WebSocketSplit`,
  `WebSocketWire`, `WebSocketServer`, `Buffers`): the resumable frame parser, the carry-over buffer, the
  fragment assembler, the encoder and the partial-send loop. However the network cuts the byte stream,
  the application receives exactly the messages that were sent (sections 5.2 to 5.5 of RFC 6455); which
  streams are handled alike in every cut once the connection closes is said exactly, and so is, byte by
  byte, what each opcode does.
- **DOM text** (`DomTree`, `DomParser`, `DomNormal`, `DomMarkup`, `DomReading`, `DomRoundTrip`,
  `DomObjects`): the character parser with its path stack, the recursive serializer and `normalize`. The
  parser understands markup in every spelling; parsing what the serializer wrote gives the tree in normal
  form, and the tree itself exactly when it was in normal form and had no text at document level.
- **DOM links** (`DomLinks`, `DomRuns`, `DomPlaces`, `DomComplete`, `DomNodes`): the node methods on a
  heap of parent, child and sibling links, where they put nodes, the invariant that every run of them
  keeps, and which operations leave a link missing.
- **Fibers** (`Fibers`, `FiberCalls`): the protocol of the V8 lock, the condition mutexes and
  `Fiber.current` as atomic steps of any number of fibers in any interleaving, and what every call has
  achieved when it returns.
- **ActiveRecord in memory** (`RecordQuery`, `RecordStore`, `DependentDestroy`, `Announcements`,
  `CounterCache`, `CounterLimits`, `WhereLexer`, `WhereParser`, `WhereRoundTrip`, `WhereFaults`,
  `WhereLoops`, `WhereObjects`): synchronized result sets that are patched instead of queried again,
  cascading destroys, counter caches, and the lexer and parser of where-clauses.
- **Modules** (`ModuleLoader`, `ModuleOutcomes`): `require` over possibly cyclic modules, with exports
  cached before evaluation, and when it succeeds.
- **HTTP** (`HttpChunked`, `HttpMultipart`): the chunked decoder (section 7.1 of RFC 9112) and the
  multipart scanner (section 5.1.1 of RFC 2046).
- **Codecs** (`BufferPack`, `BufferFormats`, `BufferPacker`, `Ieee754`, `Ieee754Bytes`, `Ieee754Layout`,
  `Ieee754Rounding`, `Ieee754Packer`, `Base64`, `Base64Digits`, `Base64Coder`, `HashPadding`, `Sha1`,
  `HashWords`, `Sha1Recurrence`, with `Numbers` and `Bits` below them): packed integers and formats,
  IEEE 754-2008 numbers, base64 (RFC 4648), SHA-1 (FIPS 180-4) and the MD5 padding (RFC 1321).
- **Shared** (`Basics`, `Characters`): small types, sequences, classes of characters, and numerals.

Where the code does not do what it seems meant for, the model follows the code, and a lemma says
exactly where the line is:

- `WebSocketSplit.SplitFreeIff` and `FramesSplitFreeIff`: which byte streams are handled alike
  however they are cut, when a frame in them closes the connection;
- `DomRoundTrip.ParseInvertsSerializeIff`: which of the trees that can be written without embedded
  terminators come back from their serialization;
- `DomPlaces.InsertWhere`: where `insertBefore` puts a node that stood before its reference;
- `DomRuns.InsertEndsIff`: which fragments `insertBefore` never finishes with;
- `DomComplete.RemoveCompleteIff`, `MoveCompleteIff` and `InsertCompleteIff`: which removals, moves and
  insertions leave no sibling link missing;
- `RecordQuery.ApplyStaysInSyncIff` and `RunStaysInSyncIff`: which changes a synchronized result set
  can follow, as creating under a used id writes over a row, and nothing is patched after a save;
- `Announcements.AnnouncedOnceIff`: on which schemas a cascade announces each destroyed row once;
- `CounterLimits.CountersExactIff`: which models keep their counters exact over every run;
- `CounterCache.CreateKeepsGoodIff` and `DestroyKeepsGoodIff`: which single creates, and which single
  destroys, of stored records or stale ones, do;
- `WhereLoops.LoopsIff`: which where-clauses the parser never finishes;
- `WhereFaults.LastClauseWins` and `CommaBeforeClose`: what it makes of several clauses and of superfluous
  commas;
- `HttpChunked.EndlessIff`: which chunked bodies the decoder never finishes;
- `Base64.DecodeThrowsIff`: which inputs the decoder throws on.

What the program gets from outside is a parameter: what the operating system accepts on a socket,
the UTF-8 decoder, the estimate of a logarithm, the comparison of a query, the requires a module
makes. `dafny verify dfyconfig.toml` checks the whole project.

## Model

| member | source | states |
|---|---|---|
| `WebSocketFrame.MaskedTwice` | lib/websocket.js:496-500 | XOR with the repeated four-byte key twice gives the data back. |
| `WebSocketFrame.MaskedServerFrame` | lib/websocket.js:508-539 | Masking the bytes that `toBuffer` writes gives exactly the masked client frame with the same opcode and payload. |
| `WebSocketFrame.ParseResumes` | lib/websocket.js:458-506 | Parsing `a + b` is parsing `a` and resuming with what was kept and `b`, from every parser state and for every outcome, errors included. |
| `WebSocketFrame.ParseConsumes` | lib/websocket.js:458-506 | A finished frame used at least one byte; an unfinished one keeps the unused bytes and makes no further progress on them. |
| `WebSocketFrame.ParseClientFrame` | lib/websocket.js:458-539 | The parser gives back the opcode, final flag and payload of every client frame up to 2^32-1 bytes, in all three length encodings, and leaves whatever follows untouched. |
| `WebSocketFrame.LengthPrefix` | lib/websocket.js:474-486 | The extended length written for any n below 2^64 is read back, or rejected with 1009 when it needs more than four bytes. |
| `WebSocketFrame.RejectsExactlyUnencodable` | lib/websocket.js:481-520 | A frame header announcing n bytes is rejected by the parser if and only if n is above the 2^32-1 that `toBuffer` refuses. |
| `WebSocketFrame.Frame.AddData` | lib/websocket.js:458-506 | The stateful parser, fed a buffer from an offset, ends in the progress, payload, consumed count or error that the stream parser gives for the same bytes. |
| `WebSocketFrame.Frame.TakeHeader` | lib/websocket.js:464-470 | The first two bytes set final flag, opcode, short length and the next state. |
| `WebSocketFrame.Frame.AddLength` | lib/websocket.js:473-486 | The length and payload phases together do what the stream parser does from there. |
| `WebSocketFrame.Frame.TakeLength` | lib/websocket.js:475-485 | Reads the big-endian length and moves on to the payload, or fails without moving on exactly when the upper half of an eight-byte length is not zero. |
| `WebSocketFrame.Frame.AddPayload` | lib/websocket.js:489-503 | Waits until key and payload are complete, then produces the unmasked payload. |
| `WebSocketFrame.Frame.ToBuffer` | lib/websocket.js:508-539 | Writes the unmasked final frame of opcode and payload, or refuses more than 2^32-1 bytes. |
| `WebSocketFrame.ReadLength` | lib/websocket.js:478-483 | The loop computes the big-endian number, or reports 1009 for a non-zero upper half. |
| `WebSocketFrame.WriteHead` | lib/websocket.js:514-534 | Writes the two header bytes and the extended length. |
| `WebSocketFrame.WriteLength` | lib/websocket.js:527-531 | The loop writes the big-endian length and nothing else. |
| `WebSocketFrame.Unmask` | lib/websocket.js:493-500 | A fresh buffer with the payload, each byte combined with the key byte at its index modulo four. |
| `WebSocketWire.MaskedBits` | lib/websocket.js:496-500 | Masking flips, in every byte, just the bits that are set in the key byte at its index modulo four. |
| `WebSocketWire.ServerFrameIs` | lib/websocket.js:508-539 | What `toBuffer` writes, byte by byte in numerals: 0x80 and the opcode, one, three or nine bytes of length, the payload. |
| `WebSocketWire.FrameRead` | lib/websocket.js:458-506 | A masked frame written in numerals is read as final exactly if its first byte is 0x80 or more, with the lower four bits as opcode. |
| `WebSocketConnection.DrainSplit` | lib/websocket.js:188-206 | Handling `a + b` in one go is handling `a` and then its carry-over followed by `b`, while the connection is open. |
| `WebSocketConnection.ProcessGrows` | lib/websocket.js:261-309 | Whatever frame is processed, events are only appended, the connection stays open exactly as long as none of them is a close, and parser and buffer are untouched. |
| `WebSocketConnection.ReceiveStaysIdle` | lib/websocket.js:181-206 | Between notifications the carry-over buffer never holds bytes the parser could already use. |
| `WebSocketConnection.ReceiveTwice` | lib/websocket.js:181-206 | Two notifications lead to the same connection as one with both chunks, up to the first close. |
| `WebSocketConnection.ClosedLogsAgree` | lib/websocket.js:190-206 | Once closed, however the connection goes on, the events up to the first close are the same. |
| `WebSocketConnection.SplitIndependence` | lib/websocket.js:181-206 | For every byte stream and every cut of it into chunks, events, parser state, carry-over, partial message and first protocol error are those of one-shot delivery, up to the first close. |
| `WebSocketDelivery.DrainStream` | lib/websocket.js:188-206 | A stream of complete masked frames is handed over frame by frame, up to and including the first that raises an exception, and leaves nothing behind. |
| `WebSocketDelivery.FoldParts` | lib/websocket.js:261-322 | The assembler turns fragments with interleaved pings and pongs into exactly one delivery of the concatenated payload, with every ping answered in place. |
| `WebSocketDelivery.FoldScripts` | lib/websocket.js:261-322 | A list of fragmented messages is delivered in order, each once. |
| `WebSocketDelivery.Delivery` | lib/websocket.js:181-322 | For every list of messages, masking keys and cut of the byte stream, `onmessage` receives exactly the original messages in order and the connection waits for the next frame. |
| `WebSocketDelivery.CloseDependsOnSplit` | lib/websocket.js:189-203 | After a close the split does matter: a frame in the same chunk as the close is still delivered, in a later chunk it is not. |
| `WebSocketWire.DataFrame` | lib/websocket.js:275-281 | A frame with opcode 1 or 2, from every state between two frames: final, it is handed over at once, as text that must decode (else 1007) or as bytes; not final, it is kept; while a message is pending, it closes with 1002. |
| `WebSocketWire.ContinuationFrame` | lib/websocket.js:264-273 | A frame with opcode 0 adds to the pending message and, when final, completes it by the type it began with; with none pending it closes with 1002. |
| `WebSocketWire.CloseFrame` | lib/websocket.js:283-293 | A frame with opcode 8 closes with 1005, or with the first two bytes of a pending message as code, or with 1002 if that is shorter. |
| `WebSocketWire.ControlFrame` | lib/websocket.js:295-308 | A frame with opcode 9 is answered by the bytes of a pong with the same payload; all other opcodes do nothing; a pending message stays. |
| `WebSocketWire.BadFrame` | lib/websocket.js:464-486 | A frame that is not masked closes with 1002, one that announces 2^32 bytes or more with 1009, whatever follows. |
| `WebSocketWire.FirstFrame` | lib/websocket.js:181-322 | What the first frame of at most 125 bytes does on a new connection, for every opcode, key and payload, bytes and close codes in numerals. |
| `WebSocketSplit.DrainPrefix` | lib/websocket.js:188-206 | Draining a prefix of the data gives a prefix of the events. |
| `WebSocketSplit.ReceivePrefix` | lib/websocket.js:181-206 | However the stream is cut, the events are a prefix of those of one-shot delivery. |
| `WebSocketSplit.BytewiseCloses` | lib/websocket.js:181-206 | Delivered byte by byte, nothing follows the close. |
| `WebSocketSplit.SplitFreeIff` | lib/websocket.js:181-206 | From every open connection between two notifications, a stream gives the same events in every cut if and only if, delivered in one piece, it gives no event after the close. |
| `WebSocketSplit.HandleQuietIff` | lib/websocket.js:261-309 | Handling a list of frames gives no event after the close if and only if, from the closing frame to the first that raises an exception, none completes a message. |
| `WebSocketSplit.FramesSplitFreeIff` | lib/websocket.js:181-322 | A stream of complete frames gives the same events in every cut if and only if, from the closing frame to the first that raises an exception, none completes a message. |
| `WebSocketServer.SendFrame` | lib/websocket.js:81-91 | However few bytes the socket takes at a time, and however often it blocks, the frame bytes go out exactly once, in order, or not at all when the frame is refused. |
| `WebSocketServer.Send` | lib/websocket.js:68-91 | Text goes out as a frame beginning with 0x81, a buffer as one beginning with 0x82, once and in order, or not at all above 2^32-1 bytes. |
| `WebSocketServer.Connection.Disconnect` | lib/websocket.js:100-125 | Closes the connection and records the close with its code or 1005. |
| `WebSocketServer.Connection.Finalize` | lib/websocket.js:311-322 | Delivers the message and clears it, or throws 1007 when text does not decode. |
| `WebSocketServer.Connection.ProcessFrame` | lib/websocket.js:261-309 | The object's new state and exception are those of the frame step. |
| `WebSocketServer.Connection.HandleFrame` | lib/websocket.js:192-206 | A finished frame is handled, or its exception closes the connection. |
| `WebSocketServer.Connection.Turn` | lib/websocket.js:190-203 | One turn of the receiving loop makes progress towards what draining the rest of the data gives. |
| `WebSocketServer.Connection.ProcessSocket` | lib/websocket.js:181-206 | The method with its buffer merging and offset loop does what the connection function does with the received bytes. |
| `Buffers.XorTwice` | lib/websocket.js:498 | Combining a byte with another twice gives it back. |
| `Buffers.CopyFrom` | src/lib/binary/binary.cc:268-294 | Copies as many bytes as source and target have from the clamped offsets on, and changes nothing else. |
| `Buffers.Joined` | lib/websocket.js:182-185 | A fresh buffer with the bytes of both. |
| `Buffers.Tail` | lib/websocket.js:200-203 | A fresh buffer with the bytes that were not used. |
| `DomTree.EscapeEntitiesIsEscape` | lib/dom.js:731-738 | The five chained global replacements escape each character independently: no replacement touches what an earlier one inserted. |
| `DomTree.EscapeIsPlain` | lib/dom.js:731-738 | No bracket and no quote is left in an escaped string. |
| `DomReading.PieceRead` | lib/dom.js:1125-1145 | A character written as itself, by name, or by a decimal or hexadecimal numeral is read back, whatever follows. |
| `DomReading.ReferenceRead` | lib/dom.js:1132-1139 | `&#d;` and `&#xh;` stand for the character with the number of the decimal numeral d or the hexadecimal h, in either case and with leading zeros, modulo 2^16. |
| `DomReading.NumericRead` | lib/dom.js:1132-1139 | All forms of a numeric reference as `parseInt` reads them: `0x` may stand again after the `x`, only the leading digits count, what follows them up to the semicolon is passed over, and without digits the number is 0. |
| `DomReading.CharactersAre` | lib/dom.js:1051-1135 | The characters of names, the ends of lines that `.` does not match and upper case, written out. |
| `DomReading.PiecesRead` | lib/dom.js:1125-1145 | A text of such pieces unescapes to its characters. |
| `DomReading.AmpersandRead` | lib/dom.js:1132-1144 | What begins like a named reference is refused unless it is one of the five and ends in a semicolon; what happens at the end of a text or line is said too. |
| `DomReading.UntilRead` | lib/dom.js:1096-1108 | Reading up to a terminator gives exactly the text before its first occurrence. |
| `DomReading.NameReadFrom` | lib/dom.js:1050-1063 | A name is read up to the first character that cannot be in a name, which has then been consumed. |
| `DomReading.EqualsRead` | lib/dom.js:996-1000 | The `=` of an attribute is found with or without white space before it. |
| `DomReading.ValueRead` | lib/dom.js:1001-1010 | A value in either kind of quotes, with or without white space before it, is read and unescaped. |
| `DomReading.AttributeRead` | lib/dom.js:992-1011 | An attribute, however it is written and whatever follows, is read into the element on top of the path. |
| `DomReading.AttributesRead` | lib/dom.js:967-980 | A list of attributes is read in order and the loop stops at the end of the tag. |
| `DomReading.StartTagRead` | lib/dom.js:952-987 | An open tag pushes its element with its attributes; a self-closing tag appends it to the element above; white space may stand before the end. |
| `DomReading.EndTagRead` | lib/dom.js:933-947 | An end tag pops its element, which then stands complete in its parent; with any other name, and outside all elements, it throws the closing error. |
| `DomReading.TextRead` | lib/dom.js:786-808 | Text before a tag or at the end becomes one text node, and disappears at document level. |
| `DomReading.RemarkRead` | lib/dom.js:886-890 | A comment is read as one node. |
| `DomReading.SectionRead` | lib/dom.js:895-899 | A CDATA section, its keyword in any case, is read as one node. |
| `DomReading.ProcessRead` | lib/dom.js:904-918 | A processing instruction is read as one node; an XML declaration leaves no trace at document level and is refused elsewhere. |
| `DomReading.NodeRead` | lib/dom.js:782-947 | Parsing the markup of a node, however it is written and whatever follows, appends the node in normal form to the top of the path and goes on with the rest. |
| `DomReading.ContentRead` | lib/dom.js:782-837 | The content of an element is read in order, with adjacent texts merged and empty ones gone. |
| `DomReading.TopRead` | lib/dom.js:764-808 | The children of the document are read in order; text and XML declarations between them leave no trace. |
| `DomReading.ParseReads` | lib/dom.js:764-1145 | For every markup (either quotes, white space around `=` and in tags, references for any characters) parsing gives the tree it stands for, in normal form. |
| `DomReading.WrongEndTag` | lib/dom.js:937-938 | A document whose element is closed under another name throws the closing error, whatever its content and whatever follows. |
| `DomReading.NoEndTag` | lib/dom.js:764-777 | A document whose element is not closed throws the end-of-file error. |
| `DomReading.BadText` | lib/dom.js:1132-1143 | Text with a bad reference throws the entity error, wherever it stands. |
| `DomReading.BadAttribute` | lib/dom.js:996-1003 | An attribute without `=` or without quotes throws the generic error. |
| `DomReading.BadValue` | lib/dom.js:1003-1004 | An attribute value with a bad reference throws the entity error. |
| `DomReading.BadDeclaration` | lib/dom.js:817-833 | A declaration that is neither a comment nor a section is refused. |
| `DomRoundTrip.UnescapeEscape` | lib/dom.js:731-738 | Unescaping an escaped string gives the string back, for every string. |
| `DomRoundTrip.WrittenIs` | lib/dom.js:661-729 | What the serializer writes for a tree is one of the markups of that tree. |
| `DomRoundTrip.SampleText` | lib/dom.js:622-729 | The text of a document with a comment, an instruction, and elements with and without content, line breaks included. |
| `DomRoundTrip.ParseGivesNormalForm` | lib/dom.js:622-837 | For every document without namespaces and document type, parsing its serialization gives its tree in normal form, without the text at document level. |
| `DomRoundTrip.ParseInvertsSerializeIff` | lib/dom.js:622-837 | The tree itself comes back if and only if no text node in it is empty, next to another one, or a child of the document. |
| `DomNormal.NormalizeIs` | lib/dom.js:139-170 | The outcome of `normalize` has no empty and no adjacent texts, the same text content, the same other children in order, and is left alone by a second `normalize`. |
| `DomNormal.MergedKeeps` | lib/dom.js:139-170 | Merging loses no text and no other node. |
| `DomNormal.MergedNormal` | lib/dom.js:139-170 | Merging normal nodes leaves no empty or adjacent texts. |
| `DomNormal.MergedAgain` | lib/dom.js:139-170 | Merging twice is merging once. |
| `DomNormal.NormalFormIsNormal` | lib/dom.js:139-170 | The normal form of every tree is normal at every depth. |
| `DomNormal.NormalFormOfNormal` | lib/dom.js:139-170 | A normal tree is its own normal form. |
| `DomNormal.AllNormalForms` | lib/dom.js:139-170 | A list of trees equals its normal form if and only if it is normal. |
| `DomNormal.Parent.Normalize` | lib/dom.js:139-170 | The loop that removes and appends in place ends with the merged children. |
| `DomObjects.DOMParser.GetChar` | lib/dom.js:1150-1163 | The next character, remembered as the last one, or null at the end without moving. |
| `DomObjects.DOMParser.GetChars` | lib/dom.js:1168-1175 | The next characters, fewer at the end of the text. |
| `DomObjects.DOMParser.ParseUntil` | lib/dom.js:1096-1108 | The token, the rest and the last character, or the end-of-file error, that the parsing function gives. |
| `DomObjects.DOMParser.ParseNodeName` | lib/dom.js:1050-1063 | Likewise for names, including the one-character result for an invalid first character. |
| `DomObjects.DOMParser.ParseWhitespace` | lib/dom.js:1113-1120 | Likewise for white space. |
| `DomObjects.DOMParser.ParseQuoted` | lib/dom.js:1088-1091 | Likewise for quoted values. |
| `DomObjects.DOMParser.ParseAttribute` | lib/dom.js:992-1011 | Path and rest, or the thrown error, are those of the parsing function. |
| `DomObjects.DOMParser.ParseElement` | lib/dom.js:952-987 | Likewise for a start tag with its attribute loop. |
| `DomObjects.DOMParser.ParseElementEnd` | lib/dom.js:933-947 | Likewise for an end tag. |
| `DomObjects.DOMParser.ParseInstruction` | lib/dom.js:904-918 | Likewise for a processing instruction or XML declaration. |
| `DomObjects.DOMParser.ParseData` | lib/dom.js:886-899 | Likewise for a comment or CDATA section. |
| `DomObjects.DOMParser.ParseNode` | lib/dom.js:813-837 | Likewise for whatever follows an opening bracket. |
| `DomObjects.DOMParser.ParseChildNodes` | lib/dom.js:782-808 | The main loop ends with the path, or throws the error, of the parsing function. |
| `DomObjects.DOMParser.ParseFromString` | lib/dom.js:764-777 | The document's children or the error that the parsing function gives. |
| `DomObjects.UnescapeEntities` | lib/dom.js:1125-1145 | A scan from left to right computes the unescaped string or the entity error. |
| `DomObjects.SerializeChildNodes` | lib/dom.js:661-667 | The texts of the children in order. |
| `DomObjects.SerializeNode` | lib/dom.js:627-729 | The text of one node, with a line break after a comment or instruction of the document itself. |
| `DomObjects.SerializeToString` | lib/dom.js:622-641 | The declaration, the children and a line break. |
| `DomObjects.Reparse` | lib/dom.js:622-837 | Serializing and parsing with the two objects never throws, gives the normal form, and the same tree exactly when it was normal. |
| `DomLinks.DetachInv` | lib/dom.js:172-189 | Detaching keeps every node listed exactly once in its parent and nowhere else and every sibling link symmetric and between neighbours, and leaves the node without parent and siblings. |
| `DomLinks.PutLinkInv` | lib/dom.js:191-207 | Splicing a detached node in anywhere and linking it keeps the invariant. |
| `DomLinks.LinkPairInv` | lib/dom.js:196-206 | Linking two neighbours keeps the invariant. |
| `DomLinks.Relink` | lib/dom.js:191-207 | Adding references again changes no parent and no child list and keeps the invariant. |
| `DomLinks.Append` | lib/dom.js:64-70 | `appendChild` keeps the invariant and the set of nodes. |
| `DomLinks.InsertBefore` | lib/dom.js:84-118 | `insertBefore`, with its index taken before the node is removed, keeps the invariant, and throws exactly when the reference is not a child. |
| `DomLinks.Replace` | lib/dom.js:120-131 | `replaceChild` keeps the invariant, and throws exactly when the old node is not a child. |
| `DomLinks.Remove` | lib/dom.js:133-137 | `removeChild` keeps the invariant, and throws exactly when the node has another parent. |
| `DomLinks.MoveKeeps` | lib/dom.js:84-118 | Putting a node in, wherever it came from, keeps the other children of the node it is put into. |
| `DomPlaces.AppendWhere` | lib/dom.js:64-70 | `appendChild` puts a node behind all other children; every other list only loses it. |
| `DomPlaces.InsertWhere` | lib/dom.js:84-118 | `insertBefore` puts a node right before the reference if and only if it is not the reference and did not stand before it in the same list, in which case it goes right behind; the whole list is given, and every other one only loses the node. |
| `DomPlaces.ReplaceWhere` | lib/dom.js:120-131 | `replaceChild` puts a node where the old child was, or one place further if it stood before that in the same list and something comes behind. |
| `DomPlaces.RemoveWhere` | lib/dom.js:133-137 | `removeChild` takes the node out of its list and changes no other. |
| `DomPlaces.FragmentAppendWhere` | lib/dom.js:46-61 | Appending a fragment puts its children behind all others as one block in their order, and empties it. |
| `DomPlaces.FragmentInsertWhere` | lib/dom.js:92-105 | Inserting a fragment puts its children right before the reference as one block in their order, with the children of fragments among them in their place. |
| `DomRuns.Insert` | lib/dom.js:84-118 | Once the reference is a child it stays one, so nothing fails while the children of a fragment, and of the fragments inside it, are put in before it. |
| `DomRuns.InsertKeepsFragments` | lib/dom.js:92-105 | Inserting moves no fragment itself. |
| `DomRuns.InsertEndsIff` | lib/dom.js:92-105 | Inserting a fragment ends if and only if the fragment does not hold itself, perhaps inside other fragments. |
| `DomRuns.Apply` | lib/dom.js:44-137 | Every node operation keeps the invariant; it throws exactly when its reference, the node to replace or the node to remove is not a child, and never ends exactly when it inserts a fragment that holds itself. |
| `DomRuns.RunInv` | lib/dom.js:44-207 | Every run of node operations, if each of them ends, keeps the invariant. |
| `DomRuns.RunsKeepLinksConsistent` | lib/dom.js:44-207 | After every such run from unlinked nodes, each node is listed exactly once in its parent and nowhere else, and sibling links are symmetric and join index neighbours of one parent. |
| `DomRuns.RunsEnd` | lib/dom.js:44-137 | In runs in which `replaceChild` never puts a fragment in, every operation ends. |
| `DomPlaces.ApplyPlaces` | lib/dom.js:44-137 | Every possible operation on a node that is not a fragment puts and removes it as these say. |
| `DomPlaces.ApplyPlacesBlock` | lib/dom.js:46-105 | Appending or inserting a fragment puts its children in as one block, empties it and changes nothing else. |
| `DomComplete.MoveComplete` | lib/dom.js:64-118 | Putting a detached node anywhere leaves no sibling link missing. |
| `DomComplete.AppendsStayComplete` | lib/dom.js:64-70 | Runs that only append detached nodes keep all sibling links complete. |
| `DomComplete.RemoveCompleteIff` | lib/dom.js:133-189 | Removing a child leaves all sibling links complete if and only if it was the first or the last child. |
| `DomComplete.MoveCompleteIff` | lib/dom.js:64-118 | Moving a child to any index of any parent leaves all sibling links complete if and only if it was the first or the last child, or goes back to its place. |
| `DomComplete.AppendCompleteIff` | lib/dom.js:64-70 | `appendChild` leaves them complete if and only if the node had no parent, or was the first or the last child. |
| `DomComplete.ReplaceComplete` | lib/dom.js:120-131 | `replaceChild` by a detached node, or by the child itself, leaves them complete. |
| `DomComplete.InsertCompleteIff` | lib/dom.js:84-118 | `insertBefore` of a child leaves all sibling links complete if and only if it was the first or the last of its parent, stood beside the reference, or is the reference. |
| `DomComplete.InsertDetachedComplete` | lib/dom.js:84-118 | `insertBefore` of a detached node leaves them complete. |
| `DomNodes.Node.RemoveReferences` | lib/dom.js:172-189 | The heap changes exactly as detaching the node does. |
| `DomNodes.Node.AddReferences` | lib/dom.js:191-207 | The heap changes exactly as linking the node to its neighbours does. |
| `DomNodes.Node.AppendChild` | lib/dom.js:44-70 | The heap changes exactly as the append operation, of a node or of a fragment's children. |
| `DomNodes.Node.AppendNodes` | lib/dom.js:49-60 | The copied children of a fragment are appended one after the other. |
| `DomNodes.Node.InsertBefore` | lib/dom.js:84-118 | The heap changes exactly as the insertion; the method fails exactly when the reference is not a child, and then changes nothing, and overflows exactly when a fragment holds itself. |
| `DomNodes.Node.InsertOpen` | lib/dom.js:84-118 | The same for a call inside others, by which the fragments on the call stack are opened. |
| `DomNodes.Node.InsertNodes` | lib/dom.js:95-104 | The copied children of a fragment are inserted one after the other, fragments among them opened in turn. |
| `DomNodes.Node.InsertOne` | lib/dom.js:107-117 | The same for a single node; a failure changes nothing. |
| `DomNodes.Node.ReplaceChild` | lib/dom.js:120-131 | The heap changes exactly as the replacement; a failure changes nothing. |
| `DomNodes.Node.RemoveChild` | lib/dom.js:133-137 | The heap changes exactly as the removal; a failure changes nothing. |
| `Fibers.InitInv` | src/lib/fibers/fibers.cc:284-296 | The main fiber alone, registered and current, satisfies the invariant. |
| `Fibers.StepLock` | src/lib/fibers/fibers.cc:111-136 | Every step keeps the V8 lock with exactly the fiber that is past taking and before releasing it. |
| `Fibers.StepMutex` | src/lib/fibers/fibers.cc:275-317 | Every step keeps each condition mutex with exactly the fiber between locking and unlocking it. |
| `Fibers.StepCurrent` | src/lib/fibers/fibers.cc:122-350 | Every step keeps `Fiber.current` the fiber that runs JavaScript. |
| `Fibers.StepRegistry` | src/lib/fibers/fibers.cc:102-135 | Every step keeps the registry the exact inverse of the local ids of running fibers, with ids never reused. |
| `Fibers.StepTarget` | src/lib/fibers/fibers.cc:249-353 | Every step keeps a fiber being woken alive, a signalled one awake, and a join behind its target's end. |
| `Fibers.StepInv` | src/lib/fibers/fibers.cc:102-353 | Every atomic step of every fiber keeps the whole invariant. |
| `Fibers.RunInv` | src/lib/fibers/fibers.cc:102-353 | The invariant holds in every state of every run, for any number of fibers and any interleaving. |
| `Fibers.OneFiberRunsJs` | src/lib/fibers/fibers.cc:111-353 | At most one fiber runs JavaScript, it holds the V8 lock, and it is `Fiber.current`. |
| `Fibers.RegistryIsExact` | src/lib/fibers/fibers.cc:102-135 | The registry lists exactly the fibers that have registered and not yet unregistered. |
| `Fibers.JoinWaitsForTarget` | src/lib/fibers/fibers.cc:344-349 | A join goes on only when its target is over, or on the fiber itself. |
| `Fibers.WakeUpIsNeverLost` | src/lib/fibers/fibers.cc:273-317 | A `becomeRunnable` issued after the suspending fiber has released the V8 lock returns only with the fiber awake, whatever other fibers do in between. |
| `FiberCalls.BecomeRunnableWakes` | src/lib/fibers/fibers.cc:249-282 | In every run, when `becomeRunnable` returns, its target is not asleep; if it was going to sleep or asleep at the call, it is awake and only waits to run again. |
| `FiberCalls.BecomeRunnableStarts` | src/lib/fibers/fibers.cc:256-272 | On a fiber without a thread, `becomeRunnable` returns at once and leaves it wanting the V8 lock; no other fiber changes. |
| `FiberCalls.OnlyBecomeRunnableStarts` | src/lib/fibers/fibers.cc:256-272 | Whenever a fiber has got a thread, some fiber has called `becomeRunnable` on it. |
| `FiberCalls.SuspendSleeps` | src/lib/fibers/fibers.cc:298-325 | `suspend` returns only after the fiber has given up the V8 lock, slept, and been woken by a signal of another fiber or spuriously; then it is `Fiber.current` again. |
| `FiberCalls.JoinReturns` | src/lib/fibers/fibers.cc:327-355 | `join` gives up the V8 lock and returns only when its target has finished, or on the fiber itself; then the caller is `Fiber.current` again. |
| `FiberCalls.JoinUnstarted` | src/lib/fibers/fibers.cc:339-342 | On a fiber without a thread, `join` raises an exception and changes nothing. |
| `FiberCalls.ReturnIsFinal` | src/lib/fibers/fibers.cc:132-147 | A fiber whose function has returned never runs JavaScript again. |
| `FiberCalls.NewIsUnstarted` | src/lib/fibers/fibers.cc:150-195 | A new fiber has no thread, and making it changes nothing else. |
| `FiberCalls.CallPossibleIff` | src/lib/fibers/fibers.cc:249-355 | Which calls can be made in which states, in both directions. |
| `FiberCalls.SoloArrives` | src/lib/fibers/fibers.cc:111-355 | While no other fiber holds the V8 lock or a mutex, at most four own steps bring a fiber from wherever it is to JavaScript, to its wait or to its end. |
| `FiberCalls.ArrivesInJs` | src/lib/fibers/fibers.cc:118-128 | A fiber that gets to JavaScript in this way, such as one whose thread has just been created, then holds the V8 lock, is `Fiber.current` and is registered. |
| `Fibers.NoCyclicWait` | src/lib/fibers/fibers.cc:249-353 | No chain of fibers waiting for each other's V8 lock or mutexes ever closes. |
| `Fibers.LockHolderProgress` | src/lib/fibers/fibers.cc:249-353 | Whenever the V8 lock is held, some fiber can take a step. |
| `Fibers.Progress` | src/lib/fibers/fibers.cc:249-353 | As long as one fiber is neither unstarted, asleep, joining nor finished, some fiber can take a step. |
| `RecordQuery.InsertKeepsTable` | lib/active_record.js:3453-3473 | Inserting under a free id keeps the table ordered by id without duplicates, and deleting it again undoes it. |
| `RecordQuery.DeleteKeepsTable` | lib/active_record.js:3533-3552 | Deleting keeps the table ordered by id and leaves no row with the id. |
| `RecordQuery.FilterAppend` | lib/active_record.js:3735-3755 | Filtering a list is filtering its parts, in order. |
| `RecordQuery.SortSorted` | lib/active_record.js:3812-3814 | The order of a query is a sorted permutation of its rows, for every strict weak comparison. |
| `RecordQuery.SortOneMore` | lib/active_record.js:3812-3814 | One more row anywhere in the input changes the stably sorted output by one insertion. |
| `RecordQuery.ArrangeOneMore` | lib/active_record.js:3805-3821 | The same with the reversal for descending order. |
| `RecordQuery.FindInsert` | lib/active_record.js:3567-3627 | One new row changes the result of a query by one insertion if it matches the where-clause and not at all otherwise. |
| `RecordQuery.PatchOneMore` | lib/active_record.js:5695-5721 | The splice at the first mismatch realises one insertion and, the other way, one removal. |
| `RecordQuery.ArrangeInOrder` | lib/active_record.js:3805-3821 | What a query finds is in its order, equal rows by id, and the other way round when descending. |
| `RecordQuery.FoundInPlaceIff` | lib/active_record.js:3482-3488 | When a stored row that the query finds is written over by another it finds, the ids found are the same if and only if no other found row lies on one side of the old row and on the other side of the new. |
| `RecordQuery.CreateStaysInSyncIff` | lib/active_record.js:5573-5594 | A create, under a free id or over a stored row, leaves a synchronized result set equal to running its query again if and only if the old row, if any, was not found, or the new one is found in its place. |
| `RecordQuery.SaveStaysInSyncIff` | lib/active_record.js:2461-2476 | A save, after which nothing is patched, leaves it equal if and only if neither row is found, or both are and in the same place. |
| `RecordQuery.DestroyStaysInSync` | lib/active_record.js:5573-5594 | A destroy always leaves it equal. |
| `RecordQuery.ApplyStaysInSyncIff` | lib/active_record.js:5539-5594 | One change keeps a result set in sync if and only if the guard on the old row and the new allows it. |
| `RecordQuery.RunStaysInSyncIff` | lib/active_record.js:5539-5594 | Over any run of creates, saves and destroys, a result set holds after every change exactly the ids, in order, that its query would find, if and only if every change passes the guard. |
| `RecordQuery.AfterIs` | lib/active_record.js:3453-3552 | A change puts its row in place of the one with its id, or takes that away, and leaves all other rows. |
| `RecordQuery.FollowedSimply` | lib/active_record.js:3453-3473 | A create under a free id always passes; over a stored row, for an unordered query, if and only if the new row is found or the old one was not. |
| `RecordQuery.OverwritingBreaksSync` | lib/active_record.js:5699-5708 | The smallest case that does not pass: a create with a used id, after which the patched result set lists a row twice. |
| `RecordStore.SpliceArguments` | lib/active_record.js:5695-5721 | The arguments the diff computes, applied to the old list, give the patched list. |
| `RecordStore.ResultSet.SpliceAll` | lib/active_record.js:5581-5592 | The loop applies the splices in turn. |
| `RecordStore.Store.FindEntities` | lib/active_record.js:3588-3626 | The chain of filters returns the matching rows in query order. |
| `RecordStore.Store.Where` | lib/active_record.js:3735-3755 | The loop keeps exactly the rows that satisfy the where-clause, in order. |
| `RecordStore.Store.NextId` | lib/active_record.js:3456-3467 | The allocated id is above every id in the table, and is one or one more than an id in it. |
| `RecordStore.Store.InsertEntity` | lib/active_record.js:3453-3473 | The row is written under the id it was given, over the row stored there if there is one, or under a new id above all others; the id is remembered. |
| `RecordStore.Store.Put` | lib/active_record.js:3482-3488 | Writes the row over the one with its id, or adds it in its place. |
| `RecordStore.Store.DeleteEntity` | lib/active_record.js:3545-3551 | The row with the id goes, and the result says whether there was one. |
| `RecordStore.Store.Trigger` | lib/active_record.js:5573-5594 | Every registered result set is patched against its own query, and nothing else changes. |
| `RecordStore.Store.Create` | lib/active_record.js:2442-2460 | Creating writes one row, under the given id or a free one; each synchronized result set is then exact if and only if the guard of its query allows it, and all are when the id was free. |
| `RecordStore.Store.Save` | lib/active_record.js:2461-2476 | Saving writes the row over; each synchronized result set, not patched, is then exact if and only if the guard of its query allows it. |
| `RecordStore.Store.Destroy` | lib/active_record.js:2483-2500 | Destroying removes the row, if any, and keeps all synchronized result sets exact; a record without an id is refused. |
| `RecordStore.Store.Synchronize` | lib/active_record.js:5668-5693 | Registers a result set that is exact from the start and leaves the others exact. |
| `DependentDestroy.DestroyCascades` | lib/active_record.js:4998-5008 | A destroy ends on every schema, cycles included, removes the record's row, leaves no row that refers to it or to any other destroyed row, and accounts for every deletion once. |
| `DependentDestroy.DestroyedReachable` | lib/active_record.js:4928-5008 | Whatever is removed was the record or reachable from it by foreign keys. |
| `DependentDestroy.PathDestroyed` | lib/active_record.js:4928-5008 | Everything along a path of foreign keys from something destroyed is destroyed. |
| `DependentDestroy.DestroysExactlyReachable` | lib/active_record.js:2483-2500 | A stored row is removed if and only if it is the record's own or reachable from it. |
| `DependentDestroy.DeletesEachOnce` | lib/active_record.js:3533-3552 | The storage deletes each of these rows exactly once and no other. |
| `DependentDestroy.ParentsFirst` | lib/active_record.js:4998-5008 | A row goes, and is announced, before every row that refers to it and goes with it. |
| `DependentDestroy.ListedInTurn` | lib/active_record.js:4999-5005 | The listed children are destroyed in the order of the list. |
| `DependentDestroy.ListAppend` | lib/active_record.js:5000 | The children are listed in the order of the table. |
| `DependentDestroy.FirstRelationFirst` | lib/active_record.js:4998-5008 | After the record itself, the first child of the relation declared first goes. |
| `DependentDestroy.SiblingSurvives` | lib/active_record.js:4998-5008 | Unless a child model has two owners one of which its own cascade reaches, a row whose parent is not stored any more survives the destruction of any other row of its table, so a listed child is still there when the loop reaches it. |
| `DependentDestroy.AnnouncesEachOnce` | lib/active_record.js:2494-2500 | On such schemas `afterDestroy` is announced once for each deleted row, in the order of deletion. |
| `Announcements.KnotAnnouncesTwice` | lib/active_record.js:2483-2500 | Where two owners of a child model are tied in this way, there are a table of distinct rows and a stored row in it whose destroy announces more often than it deletes. |
| `Announcements.AnnouncedOnceIff` | lib/active_record.js:4998-5008 | Every destroy of a stored row, on every table of distinct rows, announces exactly its deletions in their order if and only if no child model has two different owner relations, by table or key, such that the owner of the second is the child or can be reached from it along dependent relations. |
| `DependentDestroy.Storage.DestroyRecord` | lib/active_record.js:2483-2500 | The recursive method changes table, deletions and announcements as the cascade says, and ends because a stored row is deleted before its children are listed. |
| `DependentDestroy.Storage.DestroyChildren` | lib/active_record.js:5000-5007 | The loop over the related list, read once before it, destroys its records in turn. |
| `CounterCache.NextId` | lib/active_record.js:3456-3467 | The allocated id is above all ids in use, and is one or follows a stored id. |
| `CounterCache.DestroyedRows` | lib/active_record.js:4998-5099 | Counting does not change which rows a destroy removes. |
| `CounterCache.GoneParent` | lib/active_record.js:4998-5008 | Whatever a destroy takes along goes together with a row that is its parent. |
| `CounterCache.PendingKept` | lib/active_record.js:5000-5007 | Where no third owner counts the child, a listed child that goes before its turn goes together with every row that counts it. |
| `CounterCache.DestroyLow` | lib/active_record.js:4998-5099 | On models without such a third owner, a destroy leaves each counter of the rows that stay as much too low or too high as it was, one more if the record is a child and one less if the row that goes is, whatever the order of the observers. |
| `CounterCache.DestroyKeepsGoodIff` | lib/active_record.js:4998-5099 | Destroying any record, whether its row is stored as it has it, has gone, or has had its id given out again, keeps foreign keys and counters right if and only if, for each counter of the rows that stay, record and row agree on being a child, or only the record is one and no child is left. |
| `CounterCache.DestroyKeepsGood` | lib/active_record.js:4998-5099 | Destroying a stored row keeps every foreign key pointing at a stored row and every counter exact. |
| `CounterCache.NewIdHasNoChildren` | lib/active_record.js:3456-3467 | Although ids are reused, no stored row refers to an id that is not in use, so a new row starts with counter and children at zero. |
| `CounterCache.CreateKeepsGoodIff` | lib/active_record.js:5088-5099 | A create keeps foreign keys and counters right if and only if each of its own foreign keys is empty or names a stored row. |
| `CounterCache.RunKeepsGood` | lib/active_record.js:4998-5099 | On models in which whatever is counted is dependent, and without such a third owner, every run of creates under stored parents and destroys of stored rows keeps foreign keys and counters right. |
| `CounterCache.CountersStayExact` | lib/active_record.js:4998-5099 | On such models, starting from nothing, after every such run each foreign key names a stored row and each counter is the number of child rows. |
| `CounterCache.CountedStorage.HighestId` | lib/active_record.js:3456-3467 | The loop finds the id to allocate. |
| `CounterCache.CountedStorage.Create` | lib/active_record.js:2453-2459 | Insert and one increment for each counted owner, as the create step says. |
| `CounterCache.CountedStorage.Increment` | lib/active_record.js:5088-5099 | Adds one to the parent's counter, if the parent is stored. |
| `CounterCache.CountedStorage.Decrement` | lib/active_record.js:5076-5087 | Takes one off the parent's counter, not below zero, if the parent is still stored. |
| `CounterCache.CountedStorage.Destroy` | lib/active_record.js:2483-2500 | Deletes, then runs the observers, as the destroy step says. |
| `CounterCache.CountedStorage.Notify` | lib/active_record.js:4998-5087 | The observers of `afterDestroy`, cascading and counting, in the order of their declaration. |
| `CounterCache.CountedStorage.DestroyChildren` | lib/active_record.js:5000-5007 | One dependent relation. |
| `CounterCache.CountedStorage.DestroyList` | lib/active_record.js:5003-5006 | The listed records in turn, with the foreign keys they were read with. |
| `CounterLimits.DestroyLower` | lib/active_record.js:4998-5099 | On any models, a destroy leaves no counter less too low than it was; if the row was gone, one more for each counter in which the record is a child. |
| `CounterLimits.ThirdOwnerMiscounts` | lib/active_record.js:5076-5087 | Where a third owner counts the child of two relations between which its own cascade leads, there is a run of creates under stored parents, ended by one destroy of a stored row, after which the counter of a row of that owner is below the number of its children. |
| `CounterLimits.ExampleMiscounts` | lib/active_record.js:5076-5087 | Four models of this kind: `a` has many `c`, which have many `b`, which have many `c`, and `w` has many `c`, all counted. |
| `CounterLimits.OrphanLeft` | lib/active_record.js:2483-2500 | Where a counted relation is not dependent, creating a parent and a child and destroying the parent leaves a foreign key without a row. |
| `CounterLimits.CountersExactIff` | lib/active_record.js:4998-5099 | From nothing, every run of creates under stored parents and destroys of stored rows keeps all foreign keys live and all counters exact if and only if whatever is counted is dependent, and no child of two relations between which its own cascade leads is counted by a third owner. |
| `WhereLexer.SymbolRead` | lib/active_record.js:4022 | An operator is read whole when nothing after it makes it another. |
| `WhereLexer.WordRead` | lib/active_record.js:4023 | A keyword in any case is read as such before a word boundary. |
| `WhereLexer.NameRead` | lib/active_record.js:4021 | An identifier is read whole and not taken for a keyword. |
| `WhereLexer.NumberRead` | lib/active_record.js:4025 | A numeral is read whole. |
| `WhereLexer.StringRead` | lib/active_record.js:4024 | A quoted string is read up to its own closing quote, whatever follows. |
| `WhereLexer.LexemeRead` | lib/active_record.js:4110-4144 | Every lexeme is read back at the front of any text that does not continue it. |
| `WhereLexer.LexText` | lib/active_record.js:4090-4163 | Lexing a text gives back its lexemes, however they are spaced. |
| `WhereFaults.ErrorIff` | lib/active_record.js:4020-4025 | A text begins with no lexeme if and only if its first character says so, where operators and quotes need what completes them; then all of it is one bad lexeme. |
| `WhereFaults.KeywordCut` | lib/active_record.js:4023 | A keyword right before a digit or an underscore is read as a name, and before any other character that is no letter as the keyword. |
| `WhereFaults.LowerIs` | lib/active_record.js:4023-4129 | Keywords are compared letter by letter without regard to case. |
| `Characters.ClassesAre` | lib/active_record.js:4020-4025 | Digits, letters and white space are exactly the characters listed, white space as section 7.2 of ECMA-262 has it, with line ends and the other space separators. |
| `WhereRoundTrip.ReadBack` | lib/active_record.js:4441-4635 | An expression written at a precedence level with the fewest parentheses is read back at that level, whatever follows that does not continue it. |
| `WhereRoundTrip.OrSpine` | lib/active_record.js:4441-4456 | A chain of `or` reads as its left spine. |
| `WhereRoundTrip.AndSpine` | lib/active_record.js:4461-4476 | A chain of `and` reads as its left spine. |
| `WhereRoundTrip.ReadOperands` | lib/active_record.js:4481-4534 | A comparison reads both operands one level up and does not associate. |
| `WhereRoundTrip.ReadAtom` | lib/active_record.js:4539-4635 | Scalars, names, calls and parenthesised expressions are read back. |
| `WhereRoundTrip.ReadArguments` | lib/active_record.js:4562-4577 | The arguments of a call are read back in order. |
| `WhereRoundTrip.ReadList` | lib/active_record.js:4404-4416 | The list of an `in` is read back in order. |
| `WhereRoundTrip.InSpine` | lib/active_record.js:4388-4436 | A top-level chain of `in` reads as its left spine. |
| `WhereRoundTrip.ParseInvertsPrint` | lib/active_record.js:4349-4635 | For every printable clause, spelling and spacing, lexing and parsing the text gives the same tree and uses all of it. |
| `WhereRoundTrip.NumberOfDigits` | lib/active_record.js:4600 | A numeral converts back to its number. |
| `WhereRoundTrip.SinglesOk` | lib/active_record.js:4110-4114 | One space between all lexemes always separates them. |
| `WhereFaults.AfterClause` | lib/active_record.js:4363-4383 | After a whole clause, what can begin another one is parsed in its place, and anything else is refused. |
| `WhereFaults.LastClauseWins` | lib/active_record.js:4363-4383 | Of two clauses one after the other the parser gives the second and forgets the first. |
| `WhereFaults.InWithoutList` | lib/active_record.js:4392-4434 | `in` without an opening parenthesis throws. |
| `WhereFaults.InNotClosed` | lib/active_record.js:4401-4428 | A list of `in` that is not closed throws. |
| `WhereFaults.CommaBeforeClose` | lib/active_record.js:4406-4418 | An empty list, and a comma before the closing parenthesis, give an operand that is missing. |
| `WhereFaults.ParenNotClosed` | lib/active_record.js:4614-4628 | A parenthesis that is not closed throws. |
| `WhereFaults.CallNotClosed` | lib/active_record.js:4561-4582 | A call that is not closed throws. |
| `WhereFaults.CommasOptional` | lib/active_record.js:4561-4569 | The commas between the arguments of a call can be left out. |
| `WhereFaults.OperandMissing` | lib/active_record.js:4441-4535 | A clause that ends in an operator gets an operand that is missing, at every level. |
| `WhereLoops.TurnTakesNothingIff` | lib/active_record.js:4561-4582 | A turn of the loop over a call's arguments, its operand being read, takes nothing if and only if it stands at an `in` or at something unreadable. |
| `WhereLoops.StuckInArguments` | lib/active_record.js:4561-4582 | The loop then takes nothing turn after turn, whatever it has read before. |
| `WhereLoops.OrCut` | lib/active_record.js:4441-4456 | Cutting a text off before an `in` or something unreadable changes what an operand reads in one way only: what loops becomes a call that is not closed. |
| `WhereLoops.OrEnds` | lib/active_record.js:4441-4635 | No level of the parser loops on lexemes without `in` and without anything unreadable. |
| `WhereLoops.AllCut` | lib/active_record.js:4349-4383 | If a text is thrown out as a call that is not closed, the same text with an `in` or something unreadable behind it loops. |
| `WhereLoops.AllStuck` | lib/active_record.js:4349-4383 | If a text loops, there is an `in` or something unreadable in it such that what precedes it is thrown out as a call that is not closed. |
| `WhereLoops.LoopsIff` | lib/active_record.js:4349-4383 | Parsing a text never ends if and only if an `in` or something unreadable stands in it where a call's next argument is read. |
| `WhereLoops.CallOfIn` | lib/active_record.js:4349-4383 | `f(in` is such a text. |
| `WhereObjects.Lexer.Start` | lib/active_record.js:4356-4360 | Setting the source and advancing once makes all lexemes of the text available in order. |
| `WhereObjects.Lexer.Read` | lib/active_record.js:4090-4163 | The loop skips white space and exposes the next lexeme. |
| `WhereObjects.Lexer.Advance` | lib/active_record.js:4090-4163 | Drops the current lexeme. |
| `WhereObjects.Parser.ParseText` | lib/active_record.js:4349-4383 | Result, exception or endless loop are those of the parsing function for the text. |
| `WhereObjects.Parser.ParseInExpression` | lib/active_record.js:4388-4436 | Result, remaining lexemes, exception or endless loop are those of this level's function. |
| `WhereObjects.Parser.ParseItems` | lib/active_record.js:4404-4416 | Likewise for the list of an `in`. |
| `WhereObjects.Parser.ParseOrExpression` | lib/active_record.js:4441-4456 | Likewise for `or`. |
| `WhereObjects.Parser.ParseAndExpression` | lib/active_record.js:4461-4476 | Likewise for `and`. |
| `WhereObjects.Parser.ParseEqualityExpression` | lib/active_record.js:4481-4504 | Likewise for equality. |
| `WhereObjects.Parser.ParseRelationalExpression` | lib/active_record.js:4509-4534 | Likewise for order comparisons. |
| `WhereObjects.Parser.ParseMemberExpression` | lib/active_record.js:4539-4635 | Likewise for atoms. |
| `WhereObjects.Parser.ParseCallArguments` | lib/active_record.js:4561-4582 | Likewise for the argument loop of a call. |
| `ModuleLoader.Load` | src/app.cc:251-308 | Loading ends on every module graph, never changes what was in the cache, and a result is the exports object the cache holds for the module. |
| `ModuleLoader.LoadOk` | src/app.cc:276-308 | Whatever the modules do, the cache holds exactly the modules loading or loaded, and a load leaves none loading that was not before. |
| `ModuleOutcomes.CleanIff` | src/app.cc:313-350 | A file is clean, as the laws about loads without failures ask, if and only if it ends after successful requires of modules that can all be found. |
| `ModuleOutcomes.ScriptOutcomeIff` | src/app.cc:313-350 | A file ends, or throws, in a state if and only if it does so under the outcomes of the requires it makes in order, going on in one way after a success and in another after a failure. |
| `ModuleOutcomes.LoadSucceedsIff` | src/app.cc:274-308 | Requiring a module that is not cached succeeds if and only if all its files end under the outcomes of their requires; when one throws, nothing more of the module runs, the last event is its failure, and its exports are not in the cache. |
| `ModuleOutcomes.LoadAtOnce` | src/app.cc:256-275 | What is cached is given back and a name that cannot be resolved throws; neither changes anything. |
| `ModuleOutcomes.ThrowFails` | src/app.cc:296-301 | A module with a file that throws at once fails and leaves the cache empty. |
| `ModuleOutcomes.LoadApart` | src/app.cc:280-281 | Different modules in the cache always have different exports objects. |
| `ModuleLoader.CacheIsExactAlways` | src/cache.cc:192-232 | At every event of every load the exports cache is exactly the modules in progress plus those that succeeded. |
| `ModuleLoader.RunsOnceUnlessFailed` | src/app.cc:274-301 | Between two runs of the same module body there is always a failure of that module. |
| `ModuleLoader.CleanLoad` | src/app.cc:290-304 | When no file throws and every required name resolves, every load succeeds, nothing fails, and what was loaded has all it needs in the cache. |
| `ModuleLoader.LoadsOnlyReachable` | src/app.cc:251-308 | Nothing is loaded that the required module does not reach. |
| `ModuleLoader.LoadsReachableOnce` | src/app.cc:251-308 | Without failures a module body runs once if it is reachable and never otherwise, cycles included, and ends up cached exactly then. |
| `ModuleLoader.LoadOrdered` | src/app.cc:283-304 | Whenever a module finishes, each module it needs has been loaded or needs it in turn. |
| `ModuleLoader.DependenciesFinishFirst` | src/app.cc:283-304 | A module finishes after every dependency that does not depend on it in turn, hence after all of them in an acyclic graph. |
| `ModuleLoader.Loader.RequireModule` | src/app.cc:251-308 | The method with its cache entry made before and removed after a failure does what the loading function says. |
| `ModuleLoader.Loader.LoadFiles` | src/app.cc:289-304 | The loop over the files stops at the first that fails. |
| `ModuleLoader.Loader.LoadJs` | src/app.cc:313-350 | Runs one file with the requires it makes. |
| `HttpChunked.ParseHexLine` | lib/http.js:965 | Hexadecimal digits in any case, before any extension, give the chunk size. |
| `HttpChunked.NumberRead` | lib/http.js:965 | `parseInt` to the base 16: white space, a sign, perhaps `0x`, and a numeral in any case, up to what does not continue it. |
| `HttpChunked.NotANumber` | lib/http.js:965 | Where no hexadecimal digit stands after white space, a sign and `0x`, there is no number. |
| `HttpChunked.CopiedChunk` | src/lib/binary/binary.cc:263-295 | The first bytes up to the end of the chunk are right although the copy goes on to the end of the body or buffer. |
| `HttpChunked.ChunkCopied` | lib/http.js:970-985 | Growing or not, after the copy the result begins with what was there and the chunk. |
| `HttpChunked.DecodeRest` | lib/http.js:951-997 | From any state of the loop, decoding well-formed chunks appends exactly their data. |
| `HttpChunked.LastRead` | lib/http.js:951-966 | The zero chunk with any trailer, or a cut-off body, ends the decoding. |
| `HttpChunked.DecodeEncode` | lib/http.js:939-1002 | Decoding any chunked body with optional extensions, sizes in any case and with leading zeros gives the concatenation of the chunks. |
| `HttpChunked.EndlessIff` | lib/http.js:951-997 | Decoding never ends, there being no last turn of the loop, if and only if some turn begins where an earlier one did. |
| `HttpChunked.MinusSix` | lib/http.js:951-997 | The four bytes `-6` and line end are such a body. |
| `HttpChunked.DecodesWithoutMinus` | lib/http.js:951-997 | Every body without a minus sign is decoded to its end. |
| `HttpChunked.ReadLine` | lib/http.js:954-960 | The loop collects the characters before the carriage return. |
| `HttpChunked.PutChunk` | lib/http.js:980-985 | Copies to the end of what has been decoded, and nothing when that is negative. |
| `HttpChunked.MakeRoom` | lib/http.js:970-981 | Doubling always makes room for the chunk and keeps what was there. |
| `HttpChunked.ParseChunked` | lib/http.js:939-1002 | The buffer returned holds what the decoding function gives, for every body, well-formed or not; a negative length throws, and a loop that never ends is reported. |
| `HttpChunked.Truncated` | lib/http.js:998-1001 | The result cut to its actual length. |
| `HttpMultipart.IndexOfIs` | lib/binary.js:21-34 | The search finds the first occurrence at or after the start. |
| `HttpMultipart.NoneAcross` | lib/binary.js:21-34 | A delimiter whose first byte does not recur in it cannot match across the end of a part that does not contain it. |
| `HttpMultipart.NoBreakInHeader` | lib/http.js:126 | The header break cannot match earlier than the end of the header. |
| `HttpMultipart.PartFound` | lib/http.js:123-129 | The scanner finds the end of a part and of its header where they are. |
| `HttpMultipart.PartsRead` | lib/http.js:121-134 | From the end of a delimiter on, the scanner hands over exactly the parts that follow. |
| `HttpMultipart.ScanInvertsWrite` | lib/http.js:115-135 | For every list of parts in which the delimiter does not occur, with any preamble and close, the pairs of header and body are handed over in order. |
| `HttpMultipart.NoBreakInPart` | lib/http.js:126-129 | A part without a header break ends the scan with one exception or another, as there is such a break behind it or not. |
| `HttpMultipart.FindIndex` | lib/binary.js:12-35 | The two loops find the first occurrence or give minus one. |
| `HttpMultipart.ParseMultipart` | lib/http.js:115-135 | The parts handed over and the way the loop ends are those of the scan, for every buffer. |
| `BufferPack.ShiftBytesAre` | lib/bufferpack.js:38-42 | Masking and arithmetic shifting of 32-bit integers gives the two's complement bytes for every integer. |
| `BufferPack.TwosComplement` | lib/bufferpack.js:30-37 | The sign correction inverts two's complement on the whole range. |
| `BufferPack.IntRoundTrip` | lib/bufferpack.js:30-42 | Decoding an encoded integer gives it back clamped to the range of its type, for every kind, byte order and integer. |
| `BufferPack.PackWrites` | lib/bufferpack.js:230-276 | Packing succeeds exactly when there are values enough, and then writes the fields of the format at its place and nothing else. |
| `BufferPack.UnpackReads` | lib/bufferpack.js:172-227 | Unpacking the fields of a format gives the clamped values. |
| `BufferPack.PackUnpack` | lib/bufferpack.js:172-297 | For every format of integers with counts and padding, `pack` succeeds if and only if there are values enough, fills exactly the computed length, and `unpack` gives the values back clamped. |
| `BufferFormats.DirectivesRead` | lib/bufferpack.js:132 | The pattern finds exactly the directives of a format, with or without counts and keys. |
| `BufferFormats.KeyIff` | lib/bufferpack.js:132 | A key is letters and digits in parentheses, at least one. |
| `BufferFormats.WithoutKey` | lib/bufferpack.js:132 | A directive that no such key follows has none. |
| `BufferFormats.PackIs` | lib/bufferpack.js:230-281 | Packing writes, for every way to spell a format, the fields in order: each number, clamped to one, two or four bytes with or without a sign, in two's complement, the most significant byte first, or last if and only if the format begins with `<`. |
| `BufferFormats.PackShort` | lib/bufferpack.js:230-281 | `H` packs a number below 2^16 as its quotient and its remainder by 256, `<H` the other way round. |
| `BufferPacker.Packer.EnInt` | lib/bufferpack.js:38-42 | The shifting loop writes the encoded integer at its place and nothing else. |
| `BufferPacker.Packer.DeInt` | lib/bufferpack.js:30-37 | The loop reads the integer that the bytes encode. |
| `BufferPacker.Packer.PackValues` | lib/bufferpack.js:157-159 | A series of values, one after the other. |
| `BufferPacker.Packer.UnpackValues` | lib/bufferpack.js:151-154 | A series of values, one after the other. |
| `BufferPacker.Packer.Length` | lib/bufferpack.js:284-297 | The sum over the directives of the format. |
| `BufferPacker.Packer.PackInto` | lib/bufferpack.js:230-276 | Fills the buffer, or reports failure, as the packing function says. |
| `BufferPacker.Packer.Pad` | lib/bufferpack.js:269 | Zeros at their place and nothing else. |
| `BufferPacker.Packer.PackNew` | lib/bufferpack.js:279-281 | A fresh buffer of the computed length, packed. |
| `BufferPacker.Packer.UnpackAll` | lib/bufferpack.js:172-227 | The values, or none when the bytes run out. |
| `Ieee754.LoweredIs` | lib/bufferpack.js:94-98 | With an estimate of the logarithm at most one off, the first correction leaves the exponent right or one too low. |
| `Ieee754.RoundedIs` | lib/bufferpack.js:100-105 | What rounding adds to a representable number is less than one unit of its last place. |
| `Ieee754.RaisedIs` | lib/bufferpack.js:107-109 | The second correction makes the exponent right. |
| `Ieee754.SplitIs` | lib/bufferpack.js:88-124 | The exponent is that of the number and the fraction, once truncated, is its fraction, normal or denormal. |
| `Ieee754.SplitBounds` | lib/bufferpack.js:88-124 | Whatever is encoded, with an estimate at most one off, the exponent is at most the largest and the fraction is not negative. |
| `Ieee754.SplitAnyIs` | lib/bufferpack.js:88-124 | For everything the format has (zero, whose logarithm is minus infinity, normal and denormal numbers, infinities and NaN) exponent and truncated fraction are fields that stand for it. |
| `Ieee754Bytes.PackIs` | lib/bufferpack.js:126-127 | The two writing loops produce the bytes of the word made of exponent and fraction. |
| `Ieee754Bytes.PackedFields` | lib/bufferpack.js:126-128 | The bytes are those of sign, exponent and fraction in this order. |
| `Ieee754Bytes.WordRead` | lib/bufferpack.js:64-66 | The two reading loops take such a word apart again. |
| `Ieee754Bytes.FieldsRead` | lib/bufferpack.js:60-66 | Sign, exponent and fraction are read back. |
| `Ieee754Bytes.FloatRoundTrip` | lib/bufferpack.js:60-129 | Decoding gives back whatever was encoded: every number of the format, normal, denormal or zero, the infinities and NaN, in both byte orders, with the logarithm estimate only within one. |
| `Ieee754Layout.DoubleNumber` | lib/bufferpack.js:84-130 | The eight bytes of every double other than zero: sign, eleven bits of exponent with the bias 1023, 52 bits of fraction, denormalized numbers included. |
| `Ieee754Layout.SingleNumber` | lib/bufferpack.js:84-130 | The four bytes of every single other than zero: sign, eight bits of exponent with the bias 127, 23 bits of fraction. |
| `Ieee754Layout.DoubleSpecials` | lib/bufferpack.js:90-122 | The eight bytes of zero, the infinities and NaN. |
| `Ieee754Layout.SingleSpecials` | lib/bufferpack.js:90-122 | The four bytes of zero, the infinities and NaN. |
| `Ieee754Rounding.SplitRounds` | lib/bufferpack.js:95-123 | From an estimate that is not too low, any number is encoded as the greatest number of the format not above it and what is added, or as infinity when that is beyond all of them. |
| `Ieee754Rounding.EncodeRounds` | lib/bufferpack.js:84-130 | The bytes are those of the sign and of the fields that come out. |
| `Ieee754Rounding.AddedIs` | lib/bufferpack.js:147-148 | Nothing is added to doubles; to singles half a unit of the last place, but for one part in 2^53. |
| `Ieee754Bytes.LibraryRoundTrip` | lib/bufferpack.js:147-148 | The same for both formats of the library, for singles whatever amount up to half a unit arithmetic on doubles makes of what is added before truncating. |
| `Ieee754Packer.Packer754.Scaled` | lib/bufferpack.js:88-124 | The assignments to exponent, scale and value compute exponent and fraction, the special cases of zero, infinities and NaN included. |
| `Ieee754Packer.Packer754.ScaledNumber` | lib/bufferpack.js:95-124 | The same for a number other than zero. |
| `Ieee754Packer.Packer754.Encode` | lib/bufferpack.js:84-129 | The encoded bytes are put at their place and nothing else changes. |
| `Ieee754Packer.Packer754.WriteBytes` | lib/bufferpack.js:126-128 | The loops and the sign write the packed bytes in the chosen order. |
| `Ieee754Packer.Packer754.WriteFraction` | lib/bufferpack.js:126 | The first loop writes the whole bytes of the fraction. |
| `Ieee754Packer.Packer754.WriteExponent` | lib/bufferpack.js:127 | The second loop writes the rest. |
| `Ieee754Packer.Packer754.Decode` | lib/bufferpack.js:60-83 | The number, the infinity or the NaN that the bytes stand for. |
| `Ieee754Packer.Packer754.ReadFields` | lib/bufferpack.js:64-66 | The loops read sign, exponent and fraction. |
| `Base64.BytesOfPositions` | lib/base64.js:28-68 | The four positions of one, two or three bytes stand for those bytes. |
| `Base64.ReadSymbols` | lib/base64.js:61-64 | Symbols are read back as positions, and missing ones at the end of url input as padding. |
| `Base64.EncodedLength` | lib/base64.js:20-44 | The output is exactly the precomputed four bytes for every three begun. |
| `Base64.DecodeEncode` | lib/base64.js:14-82 | Decoding an encoded non-empty byte string gives it back for both alphabets, and for the url alphabet also after stripping any of the padding. |
| `Base64Digits.SymbolIs` | lib/base64.js:5-8 | The symbols are those of the two alphabets, the padding at the end. |
| `Base64Digits.EncodeIsNumeral` | lib/base64.js:14-48 | Encoding writes the digits to the base 64 of the number that the bytes are, those that hold nothing of a byte being padding. |
| `Base64.DecodeFits` | lib/base64.js:54-74 | Decoding never writes outside the precomputed buffer. |
| `Base64.DecodeThrowsIff` | lib/base64.js:58-78 | Decoding throws if and only if the input is empty or, with the padded alphabet, its length is not a multiple of four. |
| `Base64Coder.FourSymbols` | lib/base64.js:24-42 | One turn takes up to three bytes and gives their four symbols. |
| `Base64Coder.EncodeAny` | lib/base64.js:14-47 | The do-loop fills the precomputed buffer with the encoding, or throws on empty input. |
| `Base64Coder.PutAll` | lib/base64.js:39-42 | Stores bytes behind those already written, which stay. |
| `Base64Coder.NextPosition` | lib/base64.js:61 | The position of the next symbol, or padding behind the end of url input. |
| `Base64Coder.FourPositions` | lib/base64.js:61-64 | The four positions of a turn. |
| `Base64Coder.DecodeAny` | lib/base64.js:49-82 | The do-loop gives the decoding, or throws exactly when the decoding function does. |
| `Base64Coder.Front` | lib/base64.js:80 | The bytes written so far. |
| `HashPadding.FewestBlocks` | lib/hash.js:187 | The number of 16-word blocks is the least that holds message, one bit and length. |
| `HashPadding.WordsSnoc` | lib/hash.js:265-267 | One turn of the loop over the bytes adds a byte to the words, in either byte order. |
| `HashPadding.PaddingIs` | lib/hash.js:185-187 | Marking the end and storing the length gives the padded message of section 5.1.1 of FIPS 180-4 and sections 3.1 and 3.2 of RFC 1321. |
| `HashPadding.PaddingAll` | lib/hash.js:19-22 | The same for all words at once, and that there are no others. |
| `HashWords.WordIsNumber` | lib/hash.js:262-271 | A word is the number of four bytes, the most significant first for SHA-1 and last for MD5. |
| `HashWords.PaddedWordsAre` | lib/hash.js:184-188 | The words that are hashed are those of the message, a one bit, zeros, and the length in bits as a number of eight bytes. |
| `HashPadding.BufferToWords` | lib/hash.js:262-269 | The loop gives the words of the byte string, in either byte order. |
| `HashPadding.AppendPadding` | lib/hash.js:184-187 | The two assignments make the words of the padded message. |
| `Sha1.SafeAddIs` | lib/hash.js:246-250 | Adding halves with signed shifts is addition modulo 2^32. |
| `HashWords.RolIs` | lib/hash.js:255-257 | Rotating by n moves the upper n bits below the others, for every n below 32. |
| `HashWords.AndBitAt` | lib/hash.js:228 | The bits of a conjunction are those set in both numbers. |
| `HashWords.OrBitAt` | lib/hash.js:228 | The bits of a disjunction are those set in one of the numbers or in both. |
| `HashWords.NotBitAt` | lib/hash.js:228 | The bits of a complement are those not set. |
| `Numbers.XorBitAt` | lib/hash.js:229 | The bits of an exclusive or are those in which the numbers differ. |
| `Sha1.FtIs` | lib/hash.js:227-232 | The round functions with `or` are those of section 4.1.1 of FIPS 180-4 with exclusive or. |
| `Sha1.KtIs` | lib/hash.js:237-240 | The signed constants are those of section 4.2.1. |
| `Sha1.InitialIs` | lib/hash.js:189-193 | The signed initial values are those of section 5.3.3. |
| `Sha1.StepSum` | lib/hash.js:205-206 | The sum in the library's order is the sum of section 6.1.2. |
| `Sha1Recurrence.RoundBits` | lib/hash.js:227-232 | The round functions bit by bit: one bit chosen by another, the parity, the majority, the parity. |
| `Sha1Recurrence.ConstantsAreRoots` | lib/hash.js:237-240 | The constants are the first bits of the square roots of 2, 3, 5 and 10. |
| `Sha1Recurrence.InitialBytes` | lib/hash.js:189-193 | The initial values count up and down in half bytes, the least significant byte first. |
| `Sha1Recurrence.ExpandsIff` | lib/hash.js:202-203 | A sequence is the schedule of a block if and only if it begins with the block and every bit of a later word is the parity of the bits one place lower in the words 3, 8, 14 and 16 before it. |
| `Sha1Recurrence.CompressIff` | lib/hash.js:196-218 | A block is compressed to a hash value if and only if a sequence of sums modulo 2^32 leads there, of which the five registers are five terms, three of them rotated by thirty bits. |
| `Sha1.CompressBlock` | lib/hash.js:196-218 | The loop over an array filled as it goes computes the compression of one block. |
| `Sha1.CoreSha1` | lib/hash.js:184-221 | For every byte string under 2^31 bits the result is the SHA-1 state of FIPS 180-4. |
| `Bits.OrApart` | lib/hash.js:249 | Joining numbers whose bits do not overlap with `or` is adding them. |
| `Bits.ChooseBits` | lib/hash.js:228 | Choosing bits with `or` and with exclusive or is the same. |
| `Bits.MajorityBits` | lib/hash.js:230 | The majority of bits with `or` and with exclusive or is the same. |

## Left out

WebSocket

- WebSocketConnection.SplitIndependence: promises nothing for events after the first close, where the code depends on how the stream was cut; `WebSocketSplit.SplitFreeIff` says when.
- WebSocketServer.Connection.Disconnect: the close frame sent to the peer, with its code and message, is not recorded.
- WebSocketServer.Connection.ProcessFrame: a pong is recorded as sent whole, as the code makes one send call and ignores how much the socket took.
- WebSocketServer.SendFrame: a socket that blocks for ever is not modelled; the socket accepts something after finitely many calls.
- The TLS and WebSocket handshakes, the client table, the event loop, socket errors, and applications that call back into the server while a frame is being handled.
- The close body: the code reads code and message from the partial message instead of the frame, and so does the model; `WebSocketWire.CloseFrame` says which code comes out.

DOM

- DomRoundTrip.ParseGivesNormalForm: documents with namespaces or a document type, and trees with a comment, section or instruction that contains its own terminator, are excluded; the parser model reports an error on a document type, and the version and encoding in the XML declaration are read over.
- DomObjects.DOMParser.ParseElement: an element is attached to its parent when its end tag is read, the code attaches it when it starts; the finished trees are the same. Namespace resolution and line and column numbers are not part of this model.
- DomObjects.DOMParser.ParseInstruction: version and encoding of the XML declaration are read over.
- DomReading.BadDeclaration: a document type is refused in the model.
- DomObjects.DOMParser.ParseNode: a document type, which the code parses, is reported as an error.
- DomObjects.UnescapeEntities: a numeric reference to a surrogate gives the replacement character, and entity names that an object inherits from its prototype are errors.
- DomNormal.Parent.Normalize: works on child values, so that it is the first text node of several that survives as an object is not captured.
- DomRuns.RunsKeepLinksConsistent: nothing is said about ancestor cycles, which the code does not prevent, nor about the links after a stack overflow.
- DomComplete.ReplaceComplete: for `replaceChild` by a node that has a parent, completeness has no condition stated.
- DomPlaces.FragmentInsertWhere: where nodes go is not said for a fragment inserted into itself, or into a fragment within it.
- Cloning, attribute maps, element search and character data editing, which would add easy members.

Fibers

- Fibers.StepInv: suspend is called on the current fiber, as the code assumes; calls on a finished fiber, whose data the code has freed, and failing thread calls are not steps.
- Fibers.OneFiberRunsJs: `system.sleep`, which releases the V8 lock outside the protocol, is not a step.
- Fibers.Progress: says that some fiber can move, not that a scheduler is fair to each of them.

ActiveRecord

- RecordQuery.RunStaysInSyncIff: for queries with a where-clause and one order key; limits, groups and several keys do not do what they are meant for.
- RecordStore.Store.FindEntities: grouping, limit and offset, and several order keys are left out; the shortcut for a where-clause on the id alone is the same as filtering; unstable sorts of old engines are not modelled.
- RecordStore.Store.Create: validations, vetoes by observers and timestamps are left out.
- RecordStore.Store.Save: validations, the veto of `beforeSave`, and the update of other synchronized copies of the record are left out.
- RecordStore.Store.Destroy: the veto of `beforeDestroy` is left out.
- DependentDestroy.Storage.DestroyRecord: the veto of `beforeDestroy`, the refusal of a record without an id, has-many relations through another model, and ordered related lists are left out.
- CounterCache.CountedStorage.Destroy: the veto of `beforeDestroy` and the refusal of a record without an id are left out.
- CounterLimits.CountersExactIff: a foreign key of a model is meant for one table, each counted relation has a column of its own, and none is declared twice. Moving a row to another parent by an update is excluded, as no counter observer watches it.
- Transactions: rolling back restores the tables but not the synchronized result sets.
- WhereRoundTrip.ParseInvertsPrint: clauses as the grammar prints them; on other texts the parser can loop (`WhereLoops.LoopsIff`) or drop earlier results, which the model reproduces. Numerals above 2^53 keep all their digits.
- WhereObjects.Parser.ParseCallArguments: ends with the status that it loops where the original never returns.
- Evaluating a syntax tree on a row: equal trees evaluate alike, so it would add only JavaScript's comparison rules.
- The SQL adapters, inflector, date formatting, migrations and JSON.

Modules

- ModuleLoader.Load: a running file is a finite tree of requires; native modules, whose failure leaves a blank entry in the cache, unreadable files, path resolution and the cache of compiled scripts by modification time are left out.

HTTP

- HttpChunked.ParseChunked: ends with a status of its own where the original never returns; chunk sizes above 2^53 and limits on allocation are not modelled.
- HttpMultipart.ScanInvertsWrite: headers that contain the blank line or end in part of it are excluded, as they would be read differently; interpreting headers and nested multipart bodies is left out.

Codecs

- BufferPack.PackWrites: formats of integer directives and padding only, as in `PackUnpack`.
- BufferPack.UnpackReads: formats of integer directives and padding only, as in `PackUnpack`.
- BufferPack.PackUnpack: formats of integer directives and padding; strings, characters, floating point numbers inside formats and results with keys are left out.
- BufferPacker.Packer.PackInto: formats as in `BufferPack.PackUnpack`; what a failed call has already written is not stated.
- BufferPacker.Packer.PackNew: formats as in `BufferPack.PackUnpack`.
- BufferPacker.Packer.UnpackAll: formats as in `BufferPack.PackUnpack`.
- Ieee754Bytes.FloatRoundTrip: arithmetic is exact; for the numbers of a format only powers of two are computed and sums that fit or are rounded as in `LibraryRoundTrip`. The sign of zero is left out.
- Ieee754Rounding.SplitRounds: from an estimate that is one too low, half as much is added; rounding is stated for the other estimates only.
- Ieee754Packer.Packer754.Decode: the sign of zero is lost.
- Base64Coder.EncodeAny: strings as input are left out; empty input throws, because the do-loop writes into an empty buffer.
- Sha1.CoreSha1: strings of 2^31 bits or more, whose length the code truncates, and the hexadecimal output are left out.
- HashPadding.AppendPadding: of MD5 only padding, block count and length word; its rounds are a long list of constants.
- getopt, the template engines, EXIF, the Sphinx, Redis and query clients: simpler, or plumbing.
