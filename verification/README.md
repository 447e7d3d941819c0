# Prowse core: a verified model

This project models, in Dafny, the parts of the Prowse toolkit whose correctness spans several functions, and proves what
they promise. It has four cores.

* **The page IR.** A DOM tree is lowered to a depth-labelled event stream under a resource budget (`ir_model`,
  `event_stream`); elements are named by XPath-like strings (`layout`, `slashes`, `layout_paths`); a filter keeps selected
  subtrees by climbing those strings (`ir_filter`); the stream is written to and read from a binary token format
  (`ir_vtd`), or checked by a stack machine (`nesting`) and wrapped into text lines (`gfx_ir`, `gfx_hidden`, `gfx_wrap`)
  that are framed as PGFX1 bytes (`gfx_encoding`, `utf8`, `wire`). What each stage means is said apart from how it is
  computed: the events against the tree (`ir_content`), paths against siblings (`path_rules`), the lines against the
  visible glyphs (`gfx_layout`, `gfx_rules`), and the bytes by position (`vtd_positions`, `gfx_positions`). `pipeline` holds
  the results that span all stages.
* **Wire codecs.** WebSocket frames as client and server write and read them (`frames`, `websocket_client`,
  `websocket_server`), chunked HTTP bodies (`chunked`, `chunk_sizes`), a JSON printer and parser (`json`) with the grammar
  it accepts (`json_numerals`, `json_grammar`), and three base64 encoders (`base64`, `base64_numbers`). The arithmetic of
  fixed-width digits they share is in `division`; `decimals` and `trimming` hold what texts share.
* **URLs.** Dot-segment removal (`dot_segments`) and the laws that fix it (`dot_laws`), parsing and printing (`urls`) with
  the grammar of texts (`url_grammar`), resolution (`url_resolution`) and normalization (`url_normalization`).
* **Cookies.** The jar (`cookie_jar`) and `Set-Cookie` headers (`set_cookie`, `set_cookie_laws`).

Code that changes things step by step is modelled by methods and classes with the same loops and branches, and each of
them is proved equal to a function of its inputs or of the old state. The theorems are lemmas about those functions, and
the main functions are fixed by laws that do not mention how they are computed: a grammar of the accepted texts, the
place of each byte, the bits of a mask, the text of a tree. Strings are sequences of bytes, and a byte is a `char` below
256 (`bytes`), so that string literals stay readable; sizes are natural numbers, and wherever the code subtracts sizes
or shifts into a fixed width, the model says so. Exceptions are `Option` or `Result` values; the state an exception
abandons is left unspecified.

Some properties one might expect do not hold. For each the model says exactly when it does, and gives an input for which
it does not:

* printing and parsing a URL gives the same record back exactly when no stray `@` is printed (`Urls.RoundTrip`,
  `Urls.SecondAt`);
* normalizing a URL twice is normalizing it once exactly when the normal record is settled
  (`UrlNormalization.NormalizeIff`, for every URL that parses); with an authority a stray `@` unsettles it
  (`UrlNormalization.StrayAtNotIdempotent`), without one an authority or a scheme that removing dot segments uncovers
  (`UrlNormalization.NormalizeNotIdempotent`);
* the text resolver's second dot-segment removal changes nothing except for a reference without scheme, authority and path
  against a base path that has dot segments (`UrlResolution.SecondRemovalIff`, `UrlResolution.SecondRemovalNeeded`);
* the binary token format gives a stream back exactly when attributes are plain (`IrVtd.DocumentRoundTrip`,
  `IrVtd.BracketedTagIsLost`);
* a printed JSON tree parses to itself exactly when its control bytes have short escapes and its numbers are finite
  (`Json.ParseUndoesSerialize`, `Json.ControlByteIsRefused`);
* decoded tokens re-encode to the same bytes exactly when no attribute token without a name sits below an element
  (`IrVtd.EncodeInvertsDecode`, `IrVtd.UnnamedAttributeIsNamed`);
* two elements of a tree never share a path where no element's name is deceptive, that is, holds an index `[k]`, with `k`
  at least 1, directly in front of a slash (`LayoutPaths.PathsAreUnique`); and every such name shares its path in some
  tree where no other name is deceptive (`LayoutPaths.DeceptiveIff`, `LayoutPaths.SlashedNamesClash`);
* the filter keeps exactly the subtrees of the selected elements if and only if from every element and text the climb
  agrees with being held by a selected element (`IrFilter.FilterKeepsSelectedSubtrees`, for every tree); without deceptive
  names that is so unless a selected element called `text()` has the path of a text beside it
  (`IrFilter.TextBesideElementClashes`), or the climb gets stuck at a name with a slash on the way up to what is selected
  (`IrFilter.FilterKeepsUnlessStuck`, `IrFilter.SlashStopsTheClimb`).

Parsed documents hold no slash in an element's name, since the tokenizer ends names there
(`src/flatworm/html_tokenizer.cpp:64`), but scripts can create elements with any name
(`src/core/flatworm_host.cpp:482-486`), so all of these names are covered.

Where comments and code disagree, the model follows the code. `ir_vtd.cpp:101-103` says that a token takes at least 13
bytes; it takes at least 17 (one type byte and four 32-bit fields), so the reservation it derives is sufficient, but
not tight.

## Model

| member | source | states |
|---|---|---|
| EventStream.EventStreamBudget.Consume | src/core/event_stream.cpp:5-21 | charging an event fails exactly when a total would pass its bound; no subtraction wraps |
| EventStream.ConsumeAll | src/core/event_stream.cpp:30-31 | charging a whole stream one event at a time succeeds exactly when its totals fit |
| EventStream.OpenReader | src/core/event_stream.cpp:26-32 | the reader's constructor accepts exactly the streams that fit; the separate count test changes nothing |
| EventStream.TotalGrows | src/core/event_stream.cpp:5-21 | every prefix of a stream that fits the budget fits it |
| EventStream.TotalMeasures | src/core/event_stream.cpp:5-21 | a stream is charged for its events, its start events' attributes, and every byte of every string in it |
| Layout.IsRenderableText | src/core/ir_layout.cpp:15-22 | true exactly when some byte is not one of the four blanks |
| Layout.ElementPath | src/core/ir_layout.cpp:24-58 | the upward climb with sibling counting and reversal gives the parent's path plus `name[index]`, recursively |
| Layout.SegmentInjective | src/core/ir_layout.cpp:44-44 | two `name[index]` segments are equal only for the same name and index |
| PathRules.PathSays | src/core/ir_layout.cpp:24-58 | an element's path is that of what holds it, a slash, its name, and in brackets, in decimal without zeros in front, one more than the number of elder siblings of that name |
| LayoutPaths.PathsAreUnique | src/core/ir_layout.cpp:24-58 | two elements of one tree have the same path exactly when they are the same element, where no element's name holds an index `[k]` of at least 1 directly in front of a slash |
| LayoutPaths.DeceptiveIff | src/core/ir_layout.cpp:24-58 | those names are exactly the ones that can share a path: for each there is a tree, without another such name, in which an element so called has the path of another element, and for no other name is there one |
| LayoutPaths.SlashedNamesClash | src/core/ir_layout.cpp:24-58 | an example: `a[1]/b` beside an `a` that holds a `b` |
| LayoutPaths.ScopeIsAncestry | src/core/ir_layout.cpp:78-85 | under the same condition, a path is within the scope of another exactly when that one's element is the same or an ancestor |
| LayoutPaths.WithinByLastSlash | src/core/ir_layout.cpp:78-85 | the prefix test equals cutting at the last slash until the scope is met |
| IrModel.IrBuild.PushEvent | src/core/ir_model.cpp:17-20 | an event is charged and appended, or refused because it does not fit |
| IrModel.WalkTree | src/core/ir_model.cpp:35-82 | the walk appends exactly the subtree's stream and records exactly its elements' paths; it fails exactly when the stream is too deep, too wide or over budget |
| IrModel.BuildIr | src/core/ir_model.cpp:86-91 | a tree is lowered to its document-order stream exactly when that stream is shallow and fits; the path map holds every walked element and its path |
| IrContent.StreamDescribed | src/core/ir_model.cpp:35-82 | the stream of a document is, event by event, what the tree says: each start event has its element's path, name, depth, attributes and text below; each attribute event one attribute's name and value; each text event one text child's own text |
| IrContent.MarksComplete | src/core/ir_model.cpp:35-82 | these are exactly the visited elements, their attributes and their texts that are not blank, each once, in document order |
| IrContent.TextsComplete | src/core/ir_model.cpp:56-56 | the text nodes that make up an element's text content are exactly those below it, each once, in document order |
| IrContent.ContentIsJoined | src/core/ir_model.cpp:56-56 | and it is their texts, joined |
| IrFilter.ClimbFrom | src/core/ir_filter.cpp:73-100 | the loop that shrinks `scope` decides whether the climb from a path meets a selected path |
| IrFilter.FilterXas | src/core/ir_filter.cpp:38-103 | the filter returns the events of the lowered document whose climb meets a selected path, with the code's cases for an empty expression, a failed evaluation and an empty selection |
| IrFilter.ClimbAgreesWithScope | src/core/ir_filter.cpp:66-102 | from a path the climb is the plain scope test, whatever is selected, exactly if every cut on the way up passes the climb's guards |
| IrFilter.FilterKeepsSelectedSubtrees | src/core/ir_filter.cpp:38-103 | for every tree and selection, what is kept is, in order, exactly the events of the selected elements' subtrees, if and only if from every element and every text the climb meets a selected path just when a selected element is at or above it |
| IrFilter.ClimbsAgreeIff | src/core/ir_filter.cpp:69-102 | where no name is deceptive, that is so exactly when no selected `text()` has the path of a text of its parent that nothing selected holds, and whatever a selected element holds reaches one through names whose pieces between slashes all pass the guards |
| IrFilter.FilterKeepsUnlessStuck | src/core/ir_filter.cpp:38-103 | so this is then the exact condition, on the selected elements and on names alone, for the filter to keep exactly the selected subtrees |
| IrFilter.SlashStopsTheClimb | src/core/ir_filter.cpp:73-100 | with `x` selected, its child called `a/b` is lost |
| IrFilter.TextBesideElementClashes | src/core/ir_model.cpp:70-76 | with such an element the text beside it is kept as well |
| Nesting.AcceptsExactlyForests | src/core/gfx_ir.cpp:75-101 | the stack machine accepts exactly the balanced nestings with matching tags, paths and depths below 256 |
| Nesting.ForestAccepted | src/core/gfx_ir.cpp:75-101 | every such nesting drives the machine to an empty stack |
| Pipeline.LoweredDocumentsNest | src/core/ir_model.cpp:35-82 | a lowered document is accepted by the preview's machine exactly when all its tags are nonempty |
| Pipeline.PreviewedStreamsNest | src/core/gfx_ir.cpp:33-104 | every stream that previews is a balanced nesting |
| Pipeline.DocumentsPreview | src/core/gfx_ir.cpp:33-104 | a lowered document with named elements and UTF-8 visible text passes the second and third budget charges and is previewed exactly when the lines its visible glyphs make are within the limits; it is never an invalid stream nor a frame that cannot be encoded |
| Pipeline.PreviewSucceedsIff | src/core/gfx_ir.cpp:33-104 | a well-nested stream within the budget whose visible text is UTF-8 is previewed exactly when the lines its visible glyphs make are within the limits on their number, depth and bytes; otherwise it runs out of them |
| Pipeline.FilteredStreamsMatch | src/core/ir_filter.cpp:69-102 | for every tree and every set of selected paths, each end event that the filter returns closes the start event of the same element, elements lie deeper than those around them, and attributes stay with their element |
| Pipeline.FilteredStreamsAreBalanced | src/core/ir_filter.cpp:69-102 | where the filter keeps exactly the selected subtrees, what it returns is a balanced stream, each text in its element |
| GfxIr.GfxEmitter.OnEvent | src/core/gfx_ir.cpp:75-100 | one callback changes stack, line, columns, pending space, byte count and frame as the step function says, or throws its error |
| GfxIr.Replay | src/core/gfx_ir.cpp:75-100 | replaying a stream is running the step function over it |
| GfxIr.EmitGfxIr | src/core/gfx_ir.cpp:33-104 | the whole emitter: two budget charges, dimension check, run, empty stack, last line, encoding |
| GfxHidden.HiddenSubtreesDoNotMatter | src/core/gfx_ir.cpp:75-103 | cutting every hidden subtree out of a well-nested stream within the budget leaves the outcome unchanged, bytes or error, at any nesting |
| GfxHidden.PreviewDependsOnVisibleOnly | src/core/gfx_ir.cpp:15-30 | two such streams that agree outside hidden subtrees have the same outcome |
| GfxHidden.PreviewedIsAccepted | src/core/gfx_ir.cpp:33-104 | every stream that previews is well nested and within the budget, with no hidden subtree left open |
| GfxHidden.CutIsComplete | src/core/gfx_ir.cpp:15-30 | after cutting nothing hidden is left, and cutting again changes nothing |
| GfxRules.BlockIff | src/core/gfx_ir.cpp:10-14 | the block elements are fifteen, with the headings `h1` to `h6` |
| GfxRules.DrawnBy | src/core/gfx_ir.cpp:77-96 | a line breaks where one of them starts or ends, and at `br`; what is drawn for each event: a text's value, markers for list items, inputs and images, nothing else |
| GfxRules.HiddenIff | src/core/gfx_ir.cpp:15-30 | an element is hidden by its tag, by a `hidden` attribute, or by a style in which one of two declarations stands, with any blanks inside and in any case |
| GfxLayout.LayoutIsLayout | src/core/gfx_ir.cpp:48-74 | there is a layout of every sequence of glyphs: the glyphs in order, one space between two on a line exactly if blanks stand between them, no line begun before a break or a full line demands it |
| GfxLayout.LayoutIsUnique | src/core/gfx_ir.cpp:48-74 | and only one |
| GfxLayout.GapBetween | src/core/gfx_ir.cpp:60-74 | between two glyphs a break outweighs blanks, any number of blanks is one space, and without either they touch |
| GfxLayout.PreviewIsLaidOut | src/core/gfx_ir.cpp:48-103 | the lines of the decoded preview are that layout of the visible glyphs, spaces included |
| GfxWrap.FrameFaithful | src/core/gfx_ir.cpp:48-102 | the lines of the frame carry exactly the non-space bytes of the visible text and markers, in order, within all limits |
| GfxWrap.PreviewConservesText | src/core/gfx_ir.cpp:48-103 | decoding emitted bytes gives UTF-8 lines of at most `width` scalar values and 4096 bytes, in their places, with exactly the visible ink |
| GfxWrap.LineFitsFrom24 | src/core/gfx_ir.cpp:48-57 | a full line stays inside the surface exactly when the surface is at least 24 wide |
| GfxRules.WidthIs | src/core/gfx_ir.cpp:48-57 | a line takes as many glyphs, each eight wide, as fit between margins of sixteen, and at least one |
| GfxWrap.EncodeNeverRejects | src/core/gfx_ir.cpp:102-103 | for valid UTF-8 the final encoding never objects to the frame that was built |
| GfxWrap.CellsAreScalars | src/core/gfx_ir.cpp:62-74 | for UTF-8 the columns counted are the scalar values |
| Utf8.AcceptsExactlyTheEncodings | src/core/gfx_encoding.cpp:17-32 | the byte tests accept exactly the concatenated encodings of scalar values (section 4 of RFC 3629) |
| Utf8.Utf8Scalar | flatworm-modules/rpc/src/json_parser.cpp:10-30 | the accumulating reader accepts the same sequences and returns their scalar value |
| Utf8.ValidateUtf8 | flatworm-modules/rpc/src/json_parser.cpp:194-196 | the second validator accepts exactly the same strings |
| GfxEncoding.TextOkIsPrintableUtf8 | src/core/gfx_encoding.cpp:17-32 | accepted text is exactly the encodings of scalar values outside 0..0x1F and 0x7F |
| GfxEncoding.ValidText | src/core/gfx_encoding.cpp:17-32 | the loop decides that |
| GfxEncoding.EncodeGfxFrame | src/core/gfx_encoding.cpp:43-64 | encoding succeeds exactly on well-formed frames within the limits and writes their wire form; each error has its cause |
| GfxEncoding.DecodeGfxFrame | src/core/gfx_encoding.cpp:66-96 | the moving cursor computes the parse of the whole input, or refuses it |
| GfxEncoding.FrameBijection | src/core/gfx_encoding.cpp:43-96 | a byte string parses to a frame exactly when the frame is encodable and that is its encoding |
| GfxPositions.FrameByPosition | src/core/gfx_encoding.cpp:43-96 | a byte string is accepted as a frame exactly when the frame's size, columns, rows, lengths and printable texts are within bounds and the mark, width, height and count, and each command's column, row, length and text, stand one behind the other, numbers in four bytes with the lowest first |
| GfxEncoding.CountBound | src/core/gfx_encoding.cpp:81-81 | the test of the count against a thirteenth of the bytes left refuses nothing that would parse |
| Wire.ByteVector.WriteU32 | src/core/ir_vtd.cpp:16-21 | appends the four little-endian bytes |
| Wire.Cursor.ReadU32 | src/core/ir_vtd.cpp:23-34 | reads four bytes or refuses, never past the end |
| Wire.U32Bijection | src/core/ir_vtd.cpp:16-34 | reading and writing 32-bit numbers are inverse to each other |
| Wire.U32ByWeight | src/core/ir_vtd.cpp:16-34 | the four bytes are those of a number exactly when they weigh 1, 256, 65536 and 16777216 in it |
| IrVtd.EmitVtd | src/core/ir_vtd.cpp:64-87 | writes the wire form of the lowered document |
| IrVtd.DecodeVtd | src/core/ir_vtd.cpp:89-148 | reads exactly the well-formed streams; everything else gives the empty result |
| IrVtd.StreamBijection | src/core/ir_vtd.cpp:52-148 | token lists and accepted byte strings correspond one to one |
| VtdPositions.StreamByPosition | src/core/ir_vtd.cpp:52-148 | a byte string is accepted as some tokens exactly when the mark, the count, and each token's code, depth, path, name and value stand one behind the other |
| VtdPositions.DocumentByPosition | src/core/ir_vtd.cpp:64-87 | the bytes of a document hold one token for each event, in order, with codes 1 to 4 for start, attribute, text and end, and its depth, path, value and name |
| VtdPositions.AcceptedByPosition | src/core/ir_vtd.cpp:89-148 | and what is decoded are the events that the tokens in those places tell |
| IrVtd.DocumentRoundTrip | src/core/ir_vtd.cpp:64-148 | for every lowered document nothing is truncated to 32 bits, decoding succeeds, and the stream (less start attributes and subtree text) comes back exactly when attribute names are nonempty and their elements' tags are plain |
| IrVtd.BracketedTagIsLost | src/core/ir_layout.cpp:60-76 | an element called `a[b` with one attribute is lowered, and its attribute comes back with another tag |
| IrVtd.EncodeInvertsDecode | src/core/ir_vtd.cpp:64-148 | accepted bytes re-encode to themselves exactly when no attribute token lost its name |
| IrVtd.UnnamedAttributeIsNamed | src/core/ir_vtd.cpp:64-148 | the bytes of one attribute token without a name, below `/a[1]`, are accepted and re-encode to others |
| IrVtd.ReservationSuffices | src/core/ir_vtd.cpp:100-104 | an accepted count is at most (size-9)/17, so the reservation holds all events |
| IrVtd.TagComesBack | src/core/ir_layout.cpp:60-76 | the tag is recovered from a path exactly when it is plain: no `/` or `[`, not starting like a text or attribute suffix |
| Base64.EncodeBlocks | src/cli/serialize_resources.cpp:12-30 | the block loop computes the encoding of section 4 of RFC 4648 |
| Base64.ProxyAuthorization | src/core/network_client.cpp:268-283 | the header is that encoding of `username:password`, and empty without a user |
| Base64.EncodeAccumulating | src/core/playwright.cpp:452-469 | shifting bits through a 32-bit accumulator, which wraps, computes the same function |
| Base64.EncodeInjective | src/core/playwright.cpp:452-469 | different byte strings have different encodings |
| Base64Numbers.EncodesExactly | src/core/playwright.cpp:452-469 | the encoding is the one text whose symbols are the base-64 digits of the number whose base-256 digits are the bytes, filled with zero bits and padded to a multiple of four |
| Base64Numbers.Vectors | src/core/playwright.cpp:452-469 | `Man` is `TWFu`, and the last two symbols are `+` and `/` |
| Frames.LengthReadBack | src/core/network_client.cpp:442-448 | the three length forms read back the size and mask bit that were written |
| Frames.LengthWriteBack | src/core/network_client.cpp:442-448 | a length field in its shortest form is the one that would be written |
| Frames.MaskTwice | src/core/network_client.cpp:490-491 | masking twice is the identity (section 5.3 of RFC 6455) |
| Frames.XorDiffers | src/core/network_client.cpp:490-491 | each bit of a masked byte is set exactly when those of the byte and of the mask differ |
| Frames.DiffersIsXor | src/core/network_client.cpp:490-491 | and no other byte is such |
| Frames.FrameWireCarries | src/core/playwright.cpp:494-511 | the unmasked wire form holds, by position, the final bit, the opcode, the size in its shortest form with the highest byte first, and the payload |
| Frames.MaskedWireCarries | src/core/network_client.cpp:480-491 | the masked one holds the mask bit, the mask, and the payload differing from its bytes in exactly the bits of `mask[i % 4]` |
| Frames.Socket.ReadExact | src/core/playwright.cpp:483-492 | however the bytes arrive, exactly the requested ones are taken, or the stream was too short |
| Frames.Socket.SendAll | src/core/playwright.cpp:472-481 | however little each write takes, the bytes go out in order: all of them, or those the peer still took and a refusal |
| WebSocketServer.WriteFrame | src/core/playwright.cpp:494-511 | the server writes bytes that carry the frame unmasked, part by part, or what the peer takes of them and reports the failure |
| WebSocketServer.ReadFrame | src/core/playwright.cpp:513-541 | what the server reads is carried by the bytes it took: payload and wire differ in exactly the bits of the mask; or it refuses |
| WebSocketServer.ReadsExactly | src/core/playwright.cpp:513-541 | the server reads an opcode and a payload of at most 64 MiB off a stream exactly when its front carries them, in any length form, masked or not |
| WebSocketServer.ReadsEveryClientFrame | src/core/playwright.cpp:513-541 | it recovers opcode and payload from every client frame it has room for, under every mask |
| WebSocketClient.SocketWebSocket.SendFrame | src/core/network_client.cpp:480-498 | the client writes bytes that carry the frame under some mask, payload and wire differing in exactly the bits of the mask; without a mask it writes nothing, and a peer that stops taking bytes is a network error |
| WebSocketClient.SocketWebSocket.SendText | src/core/network_client.cpp:423-429 | text is written exactly when it is within the limit and UTF-8; which error is thrown in every other case and for a failing write or mask |
| WebSocketClient.SocketWebSocket.ReceiveText | src/core/network_client.cpp:430-464 | the receive loop computes the receive function of the incoming stream and writes one masked pong for each ping, in order, whether it ends in a message or an error; a peer that stops taking pongs or a mask that cannot be drawn ends it there |
| WebSocketClient.Reassembles | src/core/network_client.cpp:430-464 | any fragmentation of a text message with any pings and pongs in between, within 4096 frames and the limit, is received as the payloads in order |
| WebSocketClient.ReceivesOnlyConversations | src/core/network_client.cpp:430-464 | and nothing else is: whatever is received was such a conversation, byte for byte |
| WebSocketClient.ReceivesServerMessages | src/core/network_client.cpp:430-464 | a server's whole text message is received exactly when it is UTF-8 and within the limit, across all three length forms |
| WebSocketClient.ServerReadsPongs | src/core/playwright.cpp:513-541 | the server reads one pong for each ping, with the same payload, in order |
| WebSocketClient.PingsAreShort | src/core/network_client.cpp:449-453 | only payloads of at most 125 bytes are ever sent back |
| Chunked.ChunkReader.FillUntil | src/core/network_client.cpp:791-802 | it waits exactly until the needle is in what has arrived, and finds it where it is in the whole stream |
| Chunked.ChunkReader.NextChunk | src/core/network_client.cpp:810-867 | one turn takes the next chunk off the stream, whatever has arrived so far, with the size `strtoul` reads: signs, `0x`, saturation |
| Chunked.ChunkReader.DecodeChunked | src/core/network_client.cpp:806-869 | the result is a function of the stream alone, not of how it was split across reads |
| Chunked.DecodesEveryChunking | src/core/network_client.cpp:806-869 | every list of nonempty chunks, with any extensions and trailer, decodes to the concatenation of its data exactly when that is within the limit, and otherwise fails for the limit |
| Chunked.DecodesOnlyChunks | src/core/network_client.cpp:806-869 | whatever is decoded was a list of nonempty chunks and a tail, byte for byte; the two bytes behind a chunk's data can be any |
| Chunked.DecodesExactlyChunkings | src/core/network_client.cpp:806-869 | so a stream decodes to some data exactly when it is a chunking of that data and the data is within the limit |
| Chunked.DecodesPlainChunks | src/core/network_client.cpp:806-869 | so in particular for plain hexadecimal sizes and exact line ends |
| Chunked.PlainHexLine | src/core/network_client.cpp:819-847 | the hexadecimal numeral of a size is a size line for it |
| ChunkSizes.AnnouncesExactly | src/core/network_client.cpp:819-850 | a line announces a size exactly when it is blanks, a sign or none, `0x` or none, hexadecimal digits in either case, and anything that does not go on with a digit, before the first semicolon; too large a number saturates, and a negative one wraps |
| Json.EscapeJson | src/core/playwright.cpp:104-127 | the loop computes the escaped text |
| Json.SerializeValue | src/core/playwright.cpp:129-159 | the recursive printer with its comma loops computes the text of a tree |
| Json.Parser.ReadString | src/core/playwright.cpp:209-234 | reads one string with its escapes, or refuses it, and stops right behind it |
| Json.Parser.ReadNumber | src/core/playwright.cpp:236-252 | takes the longest run of number bytes and accepts exactly numerals |
| Json.Parser.ReadValue | src/core/playwright.cpp:180-207 | reads one value, or refuses it, and stops right behind it |
| Json.Parser.ReadObject | src/core/playwright.cpp:254-279 | reads the members up to the closing brace, in order |
| Json.Parser.ReadArray | src/core/playwright.cpp:281-301 | reads the items up to the closing bracket, in order |
| Json.Parser.Run | src/core/playwright.cpp:165-170 | the whole input is one value between blanks, or it is refused |
| JsonNumerals.NumeralIff | src/core/playwright.cpp:236-252 | the number texts accepted are exactly a sign, digits, a point and digits, and an exponent, where only one digit must be there |
| JsonGrammar.ParsesExactly | src/core/playwright.cpp:161-302 | a text parses to a tree exactly when it denotes it: blanks around every token, every escape of each byte, members and items in order |
| Json.ParseUndoesSerialize | src/core/playwright.cpp:104-302 | a printed tree, blanks around it or not, parses to the identical tree, with member order and duplicate keys, exactly when its control bytes are \b \t \n \f \r and its numbers finite; otherwise it is refused |
| JsonNumerals.PrintedIsJson | src/core/playwright.cpp:104-127 | every printed string is a string of section 7 of RFC 8259 for the same bytes, control bytes as `\u00` and two digits |
| Json.ControlByteIsRefused | src/core/playwright.cpp:104-234 | the string of the byte 1 is printed with a `\u` escape that the parser refuses |
| Json.ValueReadsBack | src/core/playwright.cpp:129-302 | the same in front of any continuation that cannot lengthen a number |
| Json.SerializeInjective | src/core/playwright.cpp:129-159 | different clean trees have different texts |
| DotSegments.RemoveDotSegments | src/core/url.cpp:28-74 | the string-rewriting loop terminates and equals the fold of a stack over slash-separated segments |
| DotSegments.OutputIsDotFree | src/core/url.cpp:28-74 | no `.` or `..` segment is left |
| DotSegments.KeptIffDotFree | src/core/url.cpp:28-74 | a path is left alone exactly when it has no dot segments |
| DotSegments.Idempotent | src/core/url.cpp:28-74 | removing twice is removing once |
| DotSegments.StaysAbsolute | src/core/url.cpp:28-74 | an absolute path stays absolute |
| DotSegments.OutputWithin | src/core/url.cpp:28-74 | every byte of the result was in the path |
| DotLaws.RemovalObeys | src/core/url.cpp:28-74 | removal keeps paths without dot segments, drops dot segments in front, `.` stays where it is, `..` takes the segment before it away, and at the root it stays there; in the middle and at the end of a path |
| DotLaws.OnlyRemovalObeys | src/core/url.cpp:28-74 | and it is the only function on paths that does |
| Urls.Parse | src/core/url.cpp:125-196 | the step-by-step parser computes the record, or refuses an unterminated bracket |
| Urls.ToString | src/core/url.cpp:100-123 | the printer computes the text of a record |
| Urls.ParsedIsOk | src/core/url.cpp:125-196 | what parsing builds: lower-case scheme and host, no delimiter in the authority, a rooted path after an authority, no query or fragment text without its mark |
| Urls.ReadsBackIff | src/core/url.cpp:100-196 | the text of a well-formed record parses to that record exactly when no part of it can be taken for another |
| Urls.RoundTrip | src/core/url.cpp:100-196 | parsing the printed form of a parsed URL gives the same record exactly when there was user information or no `@` is left in host and port |
| Urls.SecondAt | src/core/url.cpp:138-142 | with a second `@` after empty user information it does not |
| UrlGrammar.ParsesExactly | src/core/url.cpp:125-196 | a text parses to a record exactly when it can be told apart into a scheme, user information, a host, a port, a path, a query and a fragment with their marks, none holding the mark that ends it, that mean the record |
| UrlGrammar.PrintsParts | src/core/url.cpp:100-123 | the printed text is these parts with their marks, empty ones left out |
| UrlResolution.ResolveUrl | src/core/url.cpp:198-241 | the step-by-step resolver computes the target of the reference |
| UrlResolution.ResolveTexts | src/core/url.cpp:243-252 | the text resolver computes the printed, once more normalized target |
| UrlNormalization.NormalizeUrl | src/core/url.cpp:254-267 | the normalizer computes the printed normal record |
| UrlNormalization.NormalizesParts | src/core/url.cpp:254-267 | the normal text, part by part: lower-case scheme and host, no default port, no dot segments, a root path where an authority has none, the rest unchanged |
| Bytes.LowerLetters | src/core/url.cpp:20-26 | capital letters become small ones, and nothing else changes |
| UrlResolution.SecondRemovalIff | src/core/url.cpp:243-252 | the second dot-segment removal changes nothing exactly when the reference has a scheme, an authority or a path, or the base path has no dot segments |
| UrlResolution.WalkedFromBase | src/core/url.cpp:76-85 | a relative path is put behind the segments of the base path but the last and freed of dot segments; against a base with neither authority nor path it stands alone |
| UrlResolution.PathIsMerged | src/core/url.cpp:76-85 | a relative path replaces what follows the last slash of the base path, rooted against an authority without a path |
| UrlResolution.DotsLeadUp | src/core/url.cpp:76-85 | `..` in front of a reference leads to the parent of the base's directory, and never above the root |
| UrlResolution.TargetParts | src/core/url.cpp:198-241 | which of scheme, authority, path and query the target has from the reference and which from the base; the fragment is the reference's |
| UrlResolution.SecondRemovalNeeded | src/core/url.cpp:243-252 | a query alone against a base path with dot segments leaves them for the second removal |
| UrlResolution.ResolvedIsOk | src/core/url.cpp:198-241 | resolution builds well-formed records from well-formed records |
| UrlResolution.ResolvedReadsBack | src/core/url.cpp:198-241 | a resolved URL is what its text parses to exactly when that text is unambiguous |
| UrlResolution.AbsoluteResolvesToItself | src/core/url.cpp:198-207 | an absolute URL without dot segments resolves to itself against any base |
| UrlNormalization.NormalReadsBack | src/core/url.cpp:254-267 | a normalized URL is what its text parses to exactly when that text is unambiguous |
| UrlNormalization.NormalizeIff | src/core/url.cpp:254-267 | for every URL that parses, normalizing twice is normalizing once exactly when printing the normal record hides any `@` or keeps it, and an authority or a scheme that it uncovers in the path is already normal |
| UrlNormalization.NormalizeTwice | src/core/url.cpp:254-267 | an unambiguous normal record is one of them |
| UrlNormalization.NormalizeAuthorityIff | src/core/url.cpp:254-267 | with an authority: exactly when no `@` is left in host and port, or there was user information, or the stray `@` is neither first nor followed by something normalization would change |
| UrlNormalization.OneAtIsHidden | src/core/url.cpp:138-142 | an authority with at most one `@` leaves none in host and port |
| UrlNormalization.NormalizeNotIdempotent | src/core/url.cpp:254-267 | without an authority, removing dot segments can uncover one, and the second normalization changes the text |
| UrlNormalization.StrayAtNotIdempotent | src/core/url.cpp:138-142 | with an authority, a stray `@` in front is dropped by the second normalization |
| CookieJar.InMemoryCookieJar.Set | src/core/storage.cpp:64-96 | the jar becomes what it was without the same cookie, followed by the new one unless it is expired; a refused cookie changes nothing; the invariant is kept |
| CookieJar.InMemoryCookieJar.Get | src/core/storage.cpp:98-121 | returns the stably sorted list of cookies that go with the request |
| CookieJar.InMemoryCookieJar.CookieHeader | src/core/storage.cpp:123-132 | joins name and value pairs of exactly those, with `; ` between them |
| CookieJar.InMemoryCookieJar.Clear | src/core/storage.cpp:134-137 | empties the jar |
| CookieJar.SentExactly | src/core/storage.cpp:98-121 | a cookie is sent exactly if it is stored, has not expired, is not secure or goes over https, and the host and the path are its own or lie below them (a host-only one: its own); longest path first and otherwise in stored order |
| CookieJar.SentInOrder | src/core/storage.cpp:98-115 | which cookies go is decided one by one, in stored order |
| CookieJar.HeaderJoins | src/core/storage.cpp:123-132 | the header of two lists is theirs, joined by `; `; that of one cookie is `name=value` |
| CookieJar.StableSortIsUnique | src/core/storage.cpp:116-119 | sorted by length and unchanged among equal lengths: only one list is both |
| CookieJar.PreparedIsOk | src/core/storage.cpp:66-83 | what is stored has a name, an absolute path and a nonempty lower-case domain that matches its setter |
| CookieJar.StoredAs | src/core/storage.cpp:66-83 | without a domain a cookie is stored for its setter's host alone; a domain is stored without leading dots and in lower case if that host is in it, or refused; a path that is not absolute becomes the root |
| CookieJar.WithoutIs | src/core/storage.cpp:85-92 | exactly the cookies with the same name, domain and path are dropped, and the others keep their order |
| CookieJar.SetKeepsOk | src/core/storage.cpp:64-96 | setting keeps names, domains and paths distinct |
| CookieJar.JarHoldsSurvivors | src/core/storage.cpp:64-137 | after any run the jar holds, in order, exactly what some operation stored and no later one evicted |
| CookieJar.RunInvariant | src/core/storage.cpp:64-137 | over every run no two stored cookies share name, domain and path, and each one's domain is lower case, nonempty and matched the host that set it |
| SetCookie.ReadAttributes | src/core/browser.cpp:145-185 | the attribute loop applies every attribute, in order |
| SetCookie.ReadSetCookie | src/core/browser.cpp:120-209 | the parser computes the cookie, or refuses the header |
| SetCookie.LastAttributeCounts | src/core/browser.cpp:145-185 | of each attribute the last acceptable one counts, in whatever order and however often they come |
| SetCookieLaws.PairReads | src/core/browser.cpp:122-137 | the name and the value stand around the first `=`, trimmed; without a name or a `=` there is no cookie |
| SetCookieLaws.AttributeReads | src/core/browser.cpp:147-155 | an attribute is a trimmed name in any case, and a trimmed value behind its first `=` |
| SetCookieLaws.AttributesSplit | src/core/browser.cpp:145-185 | attributes stand between semicolons |
| SetCookieLaws.PickIsLast | src/core/browser.cpp:145-185 | what is picked for a name is what the last attribute of that name says that says something acceptable |
| SetCookieLaws.HeaderSays | src/core/browser.cpp:120-209 | the cookie of a header, field by field: which attribute each comes from and its default; a secure cookie over http and a domain the host is not in are refused |
| SetCookieLaws.SecondsRead | src/core/browser.cpp:166-173 | a Max-Age is accepted exactly when it is the digits of a 64-bit number, with a minus sign or none |
| SetCookieLaws.ExpiresAfter | src/core/browser.cpp:96-106 | from 1970 on, a cookie with a Max-Age has expired exactly when so many seconds have passed, whatever saturates |
| SetCookieLaws.DefaultPathIs | src/core/browser.cpp:108-118 | the default path is the request path up to its last slash, or the root |
| SetCookieLaws.NamesHeader | src/core/browser.cpp:213-216 | the header's name is read in any case |
| SetCookie.DefaultPathMatches | src/core/browser.cpp:108-118 | the default path is absolute and matches the path it was derived from |
| SetCookie.ParsedCookie | src/core/browser.cpp:187-209 | an accepted cookie is secure only over https, and its domain is the host or a dotted suffix of it |
| SetCookie.JarAccepts | src/core/storage.cpp:64-96 | the jar takes every accepted cookie of an origin with a host, with its path unchanged |
| SetCookie.ComesBackIff | src/core/storage.cpp:64-121 | an accepted, unexpired cookie goes with the next request for the same URL exactly when its path matches |
| SetCookie.ComesBackByDefault | src/core/browser.cpp:108-209 | without a Path attribute it always does |
| SetCookie.ApplyResponseCookies | src/core/browser.cpp:211-231 | a response's headers change the jar as the run of its accepted Set-Cookie headers does, each by its own readings of the clock, and one change event is emitted for each, in order |

## Left out

- Sockets, TLS, name resolution, proxies, deadlines: a socket is the bytes still to come and the bytes written, and each read or write takes any nonempty part, up to the point where the peer has closed or takes no more; a read that times out (`EAGAIN`) is not modelled.
- Masks: random bytes are arbitrary, and drawing them may fail; the theorems hold for every mask.
- XPath evaluation, CSS, the HTML tokenizer and tree builder: the tree and the list of matched positions are inputs; an evaluation that throws or gives no node set is `None`.
- Node identity: nodes are values and are named by their position, so the map keyed by nodes is keyed by positions and parent links become shorter positions; null and detached nodes are not modelled.
- GfxIr.EmitGfxIr: the callback interface of `EventStreamReader::replay` with its Stop action and `max_events` option is modelled only for this caller; `emit_prowse_dom` only selects start events and is left out.
- IrVtd.EncodeInvertsDecode: stated on the wire writer applied to decoded events, since the program itself only encodes documents.
- Chunked.ChunkReader.NextChunk: a size of 2^63 or more that passes the test against the limit because its sum wraps at 2^64 ends the model's run (`GoesBeyond`); what the program does then depends on how much has arrived and is not modelled. The theorems about chunk lists are for strings shorter than 2^63, as every `std::string` is.
- Json.Parser.ReadNumber: a number is its text; what `strtod` makes of it as a `double`, and `%.15g` the other way, are not modelled beyond which texts they accept and print.
- Locale: `tolower`, `isspace`, `isalpha` and `isalnum` are the ASCII ones of the "C" locale.
- LayoutPaths.PathsAreUnique: for trees with a document node only at the root, or none, which are the only ones a page has; `LayoutPaths.ScopeIsAncestry` and `IrFilter.ClimbsAgreeIff` likewise.
- SetCookie.ReadSetCookie: cookie dates are read by a function that is a parameter; the clock is a parameter, at or after 1970 where it matters.
- SetCookie.ApplyResponseCookies: listeners that run while an event is emitted are left out; the events are a result.
- CookieJar.InMemoryCookieJar.Get: `std::stable_sort` is a stable insertion, which `CookieJar.StableSortIsUnique` shows to be any stable sort; mutexes and access listeners are left out.
- `Url::origin`, the key-value and session stores, redirects, SHA-1, the WebSocket handshake, QuickJS, Lua and WASM bindings, the command line, configuration and the web interface would add only easy members or depend on code that is not in the repository.
