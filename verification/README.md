# go3mf: a verified model

go3mf reads, writes and validates 3MF files. This project models the parts of it that carry state or structure, and
proves what they promise. The state-changing parts are classes and methods, each proved against a specification
function; what is promised is then proved of those functions for every input, every way the input arrives and every run.

`dafny verify dfyconfig.toml` checks the whole project.

## What is modelled

**Reading XML** (`BufferedReader`, `Lexing`, `References`, `Grammar`, `Namespaces`, `Scoping`, `Events`,
`ElementStack`, `XmlDecoder`, `ReadErrors`). The parser's sliding buffer delivers the input byte for byte however it
arrives; its tokenizer is proved equal to a functional one; that one is held against markup as it may be written, and
UTF-8 and numbers as they are defined. Its linked stack with a free list is proved equal to a sequence. Over all runs
the prefix map is an exact undo log, in which the innermost declaration counts, and the events are well nested
(Namespaces in XML 1.0, sections 6.1 and 6.2; XML 1.0, sections 3.1, 4.1 and 4.6). It is proved exactly which read
errors are reported.

**Writing XML** (`Printer`, `PrintedLexing`, `RoundTrip`, `Documents`, `Declarations`). What the parser makes of the
bytes printed for any tokens, and exactly when that is what the tokens mean, where a bare name means the default
namespace, as in every file the encoder writes: in general, for documents that declare each namespace once, on any
element, and for documents that declare their namespaces on the root.

**Decoding** (`Errors`, `Handlers`, `Calls`, `ModelFile`, `UnknownElements`, `Survival`). The stack of element
handlers above the parser, the errors and the text that it accounts for, the strict and the lenient loop, and what
becomes of unknown elements that are read, kept, written and read again.

**Meshes and geometry** (`Coherency`, `Boundary`, `Graph`, `Transforms`, `BoundingBox`, `Stl`, `StlFiles`,
`Resources`). The manifold check and what it implies; bounding boxes over component graphs; vertex merging in the STL
importers, and the files they read; fresh IDs.

**Eliding codecs and validators** (`Elision`, `Attributes`, `Slices`, `BuildTransforms`). Attributes left out when
they are defaults; slice stacks across parts; the transforms that slices allow.

## What the code does that its promises do not say

- Text inside an unknown element is dropped: the second type assertion in `OnChar` is made on the failed result of the
  first (read.go:117-119). And a handler ends at the first end tag of its name, also one from deeper inside. An
  unknown element is kept whole exactly if neither occurs in it (`UnknownElements.KeptExactly`). One with a descendant
  of its own name is kept unbalanced, and makes the file that it is written to malformed
  (`Survival.NestedIsMalformed`).
- Comments, document types and CDATA sections are syntax errors (`Grammar.OtherMarkup`).
- Of several unknown elements in one place only the first is written: `Any.encode` returns on the first success
  (`UnknownElements.EncodeAny`, `UnknownElements.AllWrittenExactly`).
- The printer writes the name of an element before it learns the prefixes that its tag declares, and the end tag
  after: a root, or any other element, in a namespace that only its own tag declares, with a prefix, is started
  without the prefix and ended with it, and the file is malformed (`Documents.RootInItsOwnNamespace`,
  `Survival.SelfDeclaredIsMalformed`). `Documents.DocRoundTrip` and `Declarations.DeclaredOnceExactly` say exactly
  when that happens, `RoundTrip.DocExactly` when any document is read back.
- For an attribute in a namespace without a prefix the printer writes the namespace itself, which in general is not a
  name: the tag cannot be read. So it goes with an unknown element whose declaration stood on a known one, like the
  root of another part, which keeps no declarations (`Survival.UnprefixedIsMalformed`,
  `Survival.LostDeclarationIsMalformed`).
- An unknown element without a namespace comes back in the core namespace, as the root makes it the default one
  (`Survival.BareIsTakenIn`). `Survival.SurvivesOnce` says exactly which unknown elements survive.
- The document `<:/>` makes `OnEnd` index an empty slice: its name is empty, and so is the name the top level starts
  with. `ModelFile.PanicExactly` says exactly which runs do this.
- A read error is lost where spaces are skipped, as the next read overwrites it, and inside a quoted value, which is
  taken as if its closing quote had been read (`ReadErrors.LostAfterSpace`, `ReadErrors.LostInQuotes`). Every other one
  that is met ends the run (`ReadErrors.ReportedExactly`).
- Each directed edge and its reverse occurring once would not make a mesh closed: a triangle with a corner twice
  passes that test. The code rejects such a mesh (`Coherency.LoopsAreRejected`).
- `UnusedID` returns the least unused ID only if zero and the IDs below it are met once (`Resources.UnusedExactly`).
  Validation does not see to that: it accepts an unknown asset or a slice stack without an ID, and if an object has
  ID 1 an import then repeats it (`Resources.UnknownAssetMisleads`, `Resources.ValidatedExactly`).
- A part whose vertices all lie at the origin is left out of a bounding box, wherever it is placed
  (`BoundingBox.OriginIsLost`); one that has components but no vertices gives the box as far as its transform takes
  the limits of float32, for the identity the whole range (`BoundingBox.HollowSpreads`); and the box of a rotated part
  is in general not tight (`Transforms.ExactIffMonomial`). `BoundingBox.RightExactly` says when a box is right. Components
  without a path are looked up in the root part, also for objects of other parts (`BoundingBox.PartsAreMixedUp`);
  `BoundingBox.TrulyRightExactly` says when the box is right nevertheless.
- The guard against self-reference in `validateObjectTransforms` also compares IDs of different parts, and can end the
  loop before a transform that should be rejected (`BuildTransforms.EarlyEndHides`,
  `BuildTransforms.SelfReferenceHides`); what is accepted is planar exactly if nothing else is hidden in this way
  (`BuildTransforms.AcceptedExactly`). Items and components without a path are looked up in the part of the object
  that is validated instead of the part they are in, so a transform can be held against the wrong object
  (`BuildTransforms.MissingPathMisleads`).
- A beam whose first radius is its own and whose second is the lattice's is not read back (`Elision.BeamRoundTrip`), and
  is written differently the next time (`Elision.BeamReencoded`).

## Model

| member | source | states |
|---|---|---|
| `BufferedReader.BufioReader.ReadByte` | internal/xml/xml.go:40-54 | returns the head of the bytes and errors still to be delivered and keeps the rest; the buffer positions stay ordered and in the buffer, and the pushback slot is empty afterwards |
| `BufferedReader.BufioReader.Fill` | internal/xml/xml.go:57-82 | moves bytes from the reader into the buffer without changing what will be delivered; needs room, which ReadByte always leaves, so the panic on a full buffer cannot happen |
| `BufferedReader.BufioReader.ReadOnce` | internal/xml/xml.go:70-79 | one read appends what was delivered behind the unread bytes |
| `BufferedReader.BufioReader.Slide` | internal/xml/xml.go:59-63 | keeps the unread bytes, at the start of the buffer |
| `BufferedReader.BufioReader.Unread` | internal/xml/xml.go:542-544 | puts a byte back in front of all others; asks that the slot is empty, which holds at every call |
| `BufferedReader.StreamAfterRead` | internal/xml/xml.go:70-81 | one read of any length takes exactly its bytes and its error off the stream, and the hundredth empty read in a row puts in the no-progress error |
| `BufferedReader.StreamIsContents` | internal/xml/xml.go:40-82 | without errors and without a hundred empty reads in a row, the stream is the input, whatever the chunks |
| `BufferedReader.HundredEmptyReads` | internal/xml/xml.go:70-81 | ninety-nine empty reads in a row change nothing, the hundredth is an error |
| `XmlDecoder.Decoder.Getc` | internal/xml/xml.go:524-528 | takes one byte off the stream, or its error into err |
| `XmlDecoder.Decoder.Space` | internal/xml/xml.go:506-519 | skips white space up to the next other byte, in the stream's terms; an error met on the way is left in err, and overwritten by the next read |
| `XmlDecoder.Decoder.ReadName` | internal/xml/xml.go:777-803 | takes the longest run of name bytes off the stream, and appends it to the buffer |
| `XmlDecoder.CacheKeyInjective` | internal/xml/xml.go:755-770 | names without NUL that share a zero-padded key are equal |
| `XmlDecoder.NameTailInName` | internal/xml/xml.go:777-803 | every byte of a scanned name may be in a name, so none is NUL |
| `XmlDecoder.Decoder.ScanName` | internal/xml/xml.go:705-772 | whatever names were read before, fast paths and the cache return exactly the bytes scanned |
| `XmlDecoder.Decoder.NsName` | internal/xml/xml.go:687-700 | the scanned name, split at its first colon |
| `XmlDecoder.Decoder.ReadReference` | internal/xml/xml.go:580-669 | named and numeric references yield the character they stand for; malformed ones end in the same error and the same place as in the functional tokenizer |
| `References.RuneBytes` | internal/xml/xml.go:625-627 | a decoder of UTF-8 by lead and continuation bytes takes the bytes of every code point back to it, and those of a surrogate to U+FFFD |
| `References.RuneUnique` | internal/xml/xml.go:625-627 | by that decoder the bytes of a character are determined, so those are the only ones |
| `References.NumericMeans` | internal/xml/xml.go:595-630 | any digits in base 10 or 16, in either letter case: the reference is read as the bytes of the code point that the digits stand for by place value, and refused beyond the last one |
| `References.EntityMeans` | internal/xml/xml.go:631-655 | each of the five entities is read as its character |
| `References.OtherEntity` | internal/xml/xml.go:631-669 | every other name is refused |
| `XmlDecoder.Decoder.ReadText` | internal/xml/xml.go:558-683 | text up to a quote or a tag, with references decoded and line ends normalised, in the stream's terms |
| `XmlDecoder.Decoder.ReadAttrValue` | internal/xml/xml.go:490-503 | quoted values only |
| `XmlDecoder.Decoder.ReadAttrs` | internal/xml/xml.go:426-481 | all attributes of a tag in order, and whether the tag closes itself |
| `XmlDecoder.Decoder.ReadToken` | internal/xml/xml.go:339-487 | one token, its error and the rest of the stream agree with the functional tokenizer on every stream |
| `XmlDecoder.Decoder.ReadEnd` | internal/xml/xml.go:365-386 | an end tag and nothing else before its bracket |
| `XmlDecoder.Decoder.ReadInstruction` | internal/xml/xml.go:388-409 | a processing instruction is skipped to its end |
| `Grammar.NameBytes` | internal/xml/xml.go:786-813 | the ASCII codes that a name may have, and all bytes from 0x80 on |
| `Grammar.SplitAtColon` | internal/xml/xml.go:687-700 | what is before the first colon of a name is the prefix; without a colon there is none |
| `Grammar.ReadPieces` | internal/xml/xml.go:558-683 | text written in any way, byte by byte, with entities, numeric references in either base and line ends of three kinds, inside quotes of either kind or outside: it is read as what its pieces stand for |
| `Grammar.ReadQuoted` | internal/xml/xml.go:490-503 | so is a value in either quote |
| `Grammar.TextMeans` | internal/xml/xml.go:347-357 | so is the text in front of a tag, as one token |
| `Grammar.StartMeans` | internal/xml/xml.go:411-487 | a start tag, with any white space before and around what it consists of, is one token with its name, its attributes in order, and whether it closes itself |
| `Grammar.EndMeans` | internal/xml/xml.go:365-386 | an end tag, with any white space before its bracket, is one token |
| `Grammar.InstructionMeans` | internal/xml/xml.go:388-409 | a processing instruction ends at the first question mark with an angle bracket behind it, and is skipped |
| `Grammar.OtherMarkup` | internal/xml/xml.go:411-425 | comments, declarations and marked sections are refused |
| `XmlDecoder.Decoder.RawToken` | internal/xml/xml.go:318-488 | one call is one step of the abstract parser: same callback, same returned error, same new state; errors stick |
| `XmlDecoder.Decoder.HandleStartElement` | internal/xml/xml.go:124-147 | declares first, then expands the element name and the attribute names, then pushes |
| `XmlDecoder.Decoder.HandleEndElement` | internal/xml/xml.go:149-158 | reports the expanded name if it is that of the innermost element, and sets the error otherwise |
| `XmlDecoder.Decoder.DeclareAttrs` | internal/xml/xml.go:125-137 | the declarations of a tag in order, each saved on the stack before it is overwritten |
| `XmlDecoder.Decoder.PopElement` | internal/xml/xml.go:288-316 | accepts exactly the innermost element, then restores every binding its tag made; on a mismatch the element stays popped and nothing is restored |
| `ElementStack.Stack.Take` | internal/xml/xml.go:203-208 | a node off the free list, or a new one; it is in neither list afterwards |
| `ElementStack.Stack.Pop` | internal/xml/xml.go:215-223 | the top record; its node moves from the live list to the free list, which stay disjoint, without cycles and together hold every node |
| `ElementStack.Stack.PushElement` | internal/xml/xml.go:263-266 | the record of an element on top of all others, and a node allocated only if none was free |
| `ElementStack.Stack.PushNs` | internal/xml/xml.go:270-275 | the record of a former binding on top of all others |
| `Namespaces.UndoDeclare` | internal/xml/xml.go:124-137 | undoing takes back any declarations of a tag, also shadowing and repeated ones |
| `Namespaces.CloseAfterOpen` | internal/xml/xml.go:124-158 | closing right after opening is accepted and gives back exactly the scope from before |
| `Namespaces.CloseIsInnermost` | internal/xml/xml.go:288-302 | an accepted end tag has the expanded name of the innermost open element |
| `Scoping.InnermostCounts` | internal/xml/xml.go:124-137 | with any tags open, a prefix has the namespace of the innermost tag that declares it, and of the declarations on one tag the last counts |
| `Scoping.NameMeans` | internal/xml/xml.go:169-183 | a name is in the namespace of that declaration; an attribute without a prefix is in none |
| `Scoping.StepOpens` | internal/xml/xml.go:124-158 | every step opens a tag, whose names it reports in that tag's own scope, or closes the innermost one, or changes none |
| `Scoping.PrefixesAfter` | internal/xml/xml.go:262-316 | over every run over every input: there are as many tags as elements open, and each prefix has the namespace of the innermost one that declares it |
| `Events.StepInv` | internal/xml/xml.go:318-345 | every step keeps the parser's invariant; a start opens one element, an end closes the innermost, text changes none, an error comes without a callback |
| `Events.StepProgress` | internal/xml/xml.go:318-488 | every step without an error uses up input or a pending close, so every run ends |
| `Events.SelfClosingCloses` | internal/xml/xml.go:328-337 | the call after a self-closed start always ends that element |
| `Events.EofIsClean` | internal/xml/xml.go:322-345 | io.EOF is returned only when no element is open |
| `Events.ScopeRestored` | internal/xml/xml.go:262-316 | over any run that comes back to the depth it left without going below it, prefix map and stack are what they were |
| `Events.MatchingEndAccepted` | internal/xml/xml.go:149-183 | after any such run inside an element, an end tag with the raw name of its start is accepted |
| `Events.WellNested` | internal/xml/xml.go:149-158 | the events of every run are well nested, and balanced if the run ends with io.EOF |
| `ReadErrors.ReportedExactly` | internal/xml/xml.go:318-488 | for every stream with one read error and from any point on: the run ends with it exactly if the error is reached, and is met neither where spaces are skipped nor inside a quoted value |
| `ReadErrors.FileErrorReportedExactly` | internal/xml/xml.go:318-488 | the same for a whole file, with any bytes before the error and any bytes that can be read after it |
| `ReadErrors.LostAfterSpace` | internal/xml/xml.go:506-519 | a file whose read error comes after a space in a tag is read to a clean end |
| `ReadErrors.LostInQuotes` | internal/xml/xml.go:558-570 | a file whose read error comes inside a quoted value is read to a clean end, the value cut short |
| `Printer.XmlPrinter.CreateAttrPrefix` | internal/xml/printer.go:21-41 | the prefix of an attribute, and the prefixes known afterwards |
| `Printer.XmlPrinter.WriteStart` | internal/xml/printer.go:50-84 | writes exactly the start tag that RoundTrip.LexStart reads back, and learns its declarations |
| `Printer.XmlPrinter.WriteEnd` | internal/xml/printer.go:86-97 | writes exactly the end tag that RoundTrip.LexEnd reads back |
| `PrintedLexing.DecodeReference` | internal/xml/xml.go:580-669 | every escape the printer writes is decoded to the byte it was written for |
| `PrintedLexing.ReadEscaped` | internal/xml/printer.go:45-47 | escaped text is read as the text, with tabs and line ends intact |
| `PrintedLexing.ReadPrintedAttr` | internal/xml/printer.go:61-79 | a printed attribute is read as its name and value |
| `RoundTrip.LexStart` | internal/xml/printer.go:50-84 | a printed start tag is read as one token, with the raw names that are written and all attributes that have a name |
| `RoundTrip.LexEnd` | internal/xml/printer.go:86-97 | a printed end tag is read as one token |
| `RoundTrip.LexText` | internal/xml/printer.go:45-47 | escaped text is read as one token, up to a tag or the end of the input |
| `RoundTrip.ReadPrinted` | internal/xml/printer.go:21-97 | for any tokens that can be written, balanced or not, with any declarations, from any prefixes and in any scope: the parser's run over the printed bytes is ReadBack, which knows only names, the printer's growing prefixes and the parser's scope |
| `RoundTrip.DocReadInReads` | internal/xml/xml.go:40-82 | the same for printed bytes that arrive in any chunks |
| `RoundTrip.PartReadBack` | encoder.go:151 | the same behind the XML header, as a part of a package is written: the header yields no event, the line end after it is text |
| `RoundTrip.HeaderIs` | encoder.go:151 | the header, spelled out |
| `RoundTrip.ReadBackExactly` | internal/xml/xml.go:124-158 | whatever names the tokens are to stand for: what is read is the tokens under these names, to a clean end, exactly if each is read so under the prefixes it is written with and in the scope it is read in, every end is that of the innermost element, and none is left open |
| `RoundTrip.DocExactly` | internal/xml/printer.go:21-97 | printing a document and parsing the bytes gives back the document under these names exactly then |
| `RoundTrip.CleanIsBalanced` | internal/xml/xml.go:322-345 | what is read to a clean end has closed all it opened and lost no event; any other run ends in a syntax error |
| `RoundTrip.UnbalancedIsMalformed` | internal/xml/xml.go:322-345 | tokens that do not close what they open are read to a syntax error |
| `RoundTrip.EncodeTokens` | encoder.go:49-59 | the encoder writes the bytes the round trip speaks of |
| `Documents.ExpandPrinted` | internal/xml/printer.go:21-41 | with the printer's and the parser's prefixes in agreement, every printed attribute name expands to the original |
| `Documents.ExpandedExactly` | internal/xml/printer.go:50-60 | an element name comes back unchanged exactly if its namespace has a prefix, is the default one, or is none without a default |
| `Documents.DocRoundTrip` | internal/xml/printer.go:21-97 | a balanced document with declarations on its root is read back as its expanded starts, ends, attributes and text exactly if the root is read alike before and after its declarations, or closes itself; otherwise its end is refused |
| `Documents.RootInItsOwnNamespace` | internal/xml/printer.go:50-60 | a root in a namespace that it gives a prefix itself is written with an end tag that does not match |
| `Declarations.OpenOnce` | internal/xml/xml.go:124-147 | where each namespace is declared once, a start tag is read under its name, a bare one in the default namespace, exactly if it does not give its own namespace a prefix; its attributes always are |
| `Declarations.DeclaredOnceExactly` | internal/xml/printer.go:21-97 | a balanced document that declares each namespace once, on any element, is read back as what it means, bare names in the default namespace, exactly if no start tag gives its own namespace a prefix |
| `Errors.Wrap` | errors/errors.go:69-102 | in place, every error of a list gets the level once, and keeps its place and number; no error is shared or lost |
| `Errors.Append` | errors/list.go:59-101 | the leaves of both in order, and never a list inside a list |
| `Errors.Extend` | errors/list.go:66-83 | a list is flattened into the list it is appended to |
| `Handlers.WrapAllAddsPath` | read.go:84-89 | the errors keep number and order, and each gets the exact path from the innermost handler to the root |
| `Handlers.StartFollows` | read.go:75-106 | on a start the handlers' names stay a subsequence of the open elements' names, skipped and recorded elements included |
| `Handlers.EndFollows` | read.go:107-115 | likewise on an end, also when elements of the same name are nested |
| `Handlers.CrashExactly` | read.go:107-112 | the handler stack underflows exactly on the end of a nameless element while no handler is started |
| `Handlers.SubsequencePositions` | read.go:75-115 | the handlers' elements have strictly increasing positions among the open ones |
| `Handlers.Machine.Start` | read.go:75-106 | pushes a known child, starts it and wraps its errors; records or passes by otherwise |
| `Handlers.Machine.End` | read.go:107-115 | ends and pops the handler whose name it is; records or passes by otherwise |
| `Handlers.Machine.Char` | read.go:116-122 | text goes to handlers that take text and to no other |
| `Calls.StartCalls` | read.go:75-106 | a start tag starts exactly the child that the innermost open handler gives, with the attributes of the tag, or is appended; which handler that is, is told by the calls before |
| `Calls.TextStep` | read.go:116-122 | text is exactly one more call exactly if the innermost open handler takes text |
| `Calls.ErrorsStep` | read.go:83-91 | every event adds exactly the errors of the handler that it starts, within the levels of the handlers that are open |
| `Calls.RunAccounted` | read.go:75-122 | over any events: the errors are those that the start of every handler reports, in order, each within the levels of the handlers that were open, from the parent outwards; and the calls with text are the text that came while the innermost handler took any, in order; all told from the calls alone |
| `ModelFile.DecodeModelFile` | read.go:64-152 | for any reader and any handlers, the loop over the real parser has the outcome, the calls and the errors of the abstract run |
| `ModelFile.AllHandlersEnded` | read.go:75-115 | at a clean end of input every started handler has been ended exactly once, innermost first |
| `ModelFile.StrictIsFirstError` | read.go:123-151 | strict decoding succeeds exactly when lenient decoding does, returns the first of the lenient errors, and ends alike on malformed input |
| `ModelFile.PanicExactly` | read.go:107-112 | the loop panics exactly if the events underflow the stack, in strict decoding before the first error of a handler |
| `ModelFile.NamedNeverUnderflows` | read.go:107-112 | without nameless elements the stack never underflows |
| `ModelFile.NamelessUnderflows` | read.go:107-112 | the document with a single nameless element underflows it |
| `ModelFile.FileEndsHandlers` | read.go:64-152 | for every file and all handlers: a file that ends cleanly has ended every handler it started |
| `ModelFile.FilePanicsExactly` | read.go:64-152 | a file panics exactly if its events underflow the handlers |
| `ModelFile.FileStrictIsFirst` | read.go:64-152 | a file decodes strictly exactly if it does leniently, and otherwise fails with the first of the lenient errors |
| `ModelFile.DecodeReactsToAll` | read.go:123-140 | lenient decoding reacts to every event of the run |
| `ModelFile.StrictReactsToSome` | read.go:125-128 | strict decoding reacts to a prefix of them, and without an error to all |
| `ModelFile.FileAccounted` | read.go:64-140 | so for every file and all handlers the errors are those of the handlers started, and in lenient decoding all text is delivered |
| `ModelFile.LenientReturnsAll` | read.go:141-151 | lenient decoding succeeds, returns the parser's error, or returns all errors of the handlers in order: which one, exactly |
| `ModelFile.StrictReturnsFirst` | read.go:125-151 | the same of strict decoding, which returns the first of them |
| `ModelFile.FileReturnsAll` | read.go:141-151 | the errors that lenient decoding returns are those of every handler started, in full |
| `UnknownElements.ElementRecorded` | read.go:93-115 | an unknown element whose name does not end inside it calls its handler with start, every tag in order and end, and leaves the stack as it was |
| `UnknownElements.RecordedExactly` | read.go:93-115 | whatever lies inside an unknown element: its handler gets start, every tag in order and end exactly if no end tag of its own name lies inside |
| `UnknownElements.KeptElement` | spec/spec.go:129-150 | what is kept of such an element is its start tag, the tags inside it and its end tag |
| `UnknownElements.KeptUpToEnd` | spec/spec.go:129-150 | what is kept are the start tag, the tags up to the first end tag of that name, and the end tag |
| `UnknownElements.KeptExactly` | spec/spec.go:129-150 | that is the whole element exactly if it has no text and no end tag of its own name inside |
| `UnknownElements.NestedSameName` | read.go:107-115 | an element with a child of its own name is kept without its last end tag, unbalanced |
| `UnknownElements.TagsNest` | spec/spec.go:123-150 | the kept tags nest as the events did, so they are balanced |
| `UnknownElements.TokensDecoder.Take` | spec/spec.go:129-154 | after any calls of the handler stack the decoder holds exactly what those calls keep |
| `UnknownElements.Marshal` | spec/spec.go:114-119 | writes the kept tokens in order, under the flags the encoder has |
| `UnknownElements.EncodeAny` | encoder.go:540-547 | of the unknown elements in one place exactly the first is written |
| `UnknownElements.AllWrittenExactly` | encoder.go:540-547 | which is all of them exactly if there is only one |
| `Survival.Replayed` | spec/spec.go:114-119 | tags that are written among any tokens are parsed as the same tags in the same place, to a clean end, and what is around them as what it means, exactly if all these names are read so where they are written |
| `Survival.SurvivesExactly` | spec/spec.go:114-154 | an unknown element that is read, kept, written among any tokens and parsed again yields what it came with, in its place and to a clean end, exactly if it has no text, no end tag of its own name inside, and its names are read as themselves there, those around it as what they mean |
| `Survival.SurvivesOnce` | spec/spec.go:114-154 | where each namespace is declared once: exactly if it has no text, no end tag of its own name inside, no tag without a namespace where there is a default one, and no start tag that gives its own namespace a prefix |
| `Survival.PrefixedSurvives` | encoder.go:211-236 | a model named bare under a default namespace, with an unknown element whose prefix it declares: such a document, and it is read back |
| `Survival.BareIsTakenIn` | encoder.go:211-236 | with an unknown element without a namespace in it, that one is read back in the default namespace |
| `Survival.NestedIsMalformed` | read.go:107-115 | every balanced element with a descendant of its own name, written among tokens that are balanced without it, makes a malformed file |
| `Survival.SelfDeclaredIsMalformed` | internal/xml/printer.go:50-84 | an element that declares the prefix of its own namespace, inside a root named in any way, is kept whole and written as a malformed file |
| `Survival.UnprefixedIsMalformed` | internal/xml/printer.go:21-41 | from any prefixes and in any scope, a tag whose first attribute is in a namespace that has no prefix and is not a name is written so that reading it is a syntax error |
| `Survival.LostDeclarationIsMalformed` | decoder.go:47-50 | an unknown element with an attribute in its own namespace, which no written tag declares, is kept whole and makes any file it is written to malformed |
| `Coherency.ValidateCoherency` | validate.go:415-456 | accepts exactly meshes with at least 3 vertices and 4 triangles in which every directed edge joins two different vertices and occurs once, as does its reverse; and says which error is returned otherwise |
| `Coherency.MatchPairs` | validate.go:423-434 | counts the undirected edges and gives each its place in the order they are met |
| `Coherency.OrderLists` | math.go:31-36 | that order lists every undirected edge once, whichever direction was met first |
| `Coherency.CountEdges` | validate.go:436-448 | each counter is the number of times its edge occurs in that direction |
| `Coherency.OnesIffClosed` | validate.go:450-454 | all counters are one exactly if the edges are closed |
| `Coherency.CornersDiffer` | validate.go:450-454 | an accepted mesh has no triangle with a corner twice |
| `Coherency.LoopsAreRejected` | validate.go:441-447 | every accepted mesh with a triangle more that is apart from it and has a corner twice: its directed edges and reverses occur once each, and it is rejected all the same |
| `Boundary.ZeroBoundary` | validate.go:450-454 | every antisymmetric function of edges sums to zero over closed edges |
| `Boundary.EdgesPerTriangle` | validate.go:423-436 | an accepted mesh has three triangles for every two edges counted, and an even number of triangles |
| `Boundary.VolumeIsInvariant` | validate.go:415-456 | the signed volume of an accepted mesh does not change when it is moved |
| `Graph.FindObject` | core.go:166-173 | the loop returns the first object with the ID |
| `Graph.FirstIsThere` | core.go:166-173 | the search finds an object exactly if one has the ID |
| `Graph.PartsByName` | core.go:263-271 | the root part is found under the empty path, its own one or the default one if it has none, every other part under its own |
| `Transforms.Mul3DMul` | math.go:135-164 | a product of transforms does to a point what its factors do one after the other |
| `Transforms.MulBoxTight` | math.go:177-195 | with one input axis per output axis, the transformed box is the tight box of the transformed points |
| `Transforms.ExactIffMonomial` | math.go:177-195 | a transform that is applied gives the tight box for all points exactly if each output axis has at most one input axis |
| `Transforms.ExtendCovers` | math.go:212-225 | extending a box by a box is the tight box of both sets of points |
| `Transforms.LargestFloat` | math.go:205-210 | the bound of an empty box is the largest number of float32 |
| `BoundingBox.JoinedAnyOrder` | core.go:240-258 | the boxes of components or items can be joined in any order |
| `BoundingBox.MeshBoundingBox` | core.go:478-487 | the box grown vertex by vertex |
| `BoundingBox.GrowPointsCovers` | core.go:478-487 | which is the tight box of the vertices |
| `BoundingBox.ObjectBoundingBox` | core.go:405-422 | the loop over the components refines the nested box; it ends because ranks fall |
| `BoundingBox.ModelBoundingBox` | core.go:236-260 | in whatever order the items arrive, the result is the same |
| `BoundingBox.BoxIsOfKept` | core.go:405-422 | the box is the tight one of the points kept: all but those of parts at the origin, and the far corners of transformed parts without points |
| `BoundingBox.RightExactly` | core.go:405-422 | the nested box is the tight box of all vertices below, each in its place, or empty without any, exactly if on every axis those reach as far as the points kept, or the object has no parts |
| `BoundingBox.BoxIsTight` | core.go:405-422 | so it is with points in every part, not all of them at the origin |
| `BoundingBox.FlatIsNested` | core.go:413-419 | placing vertices transform by transform is placing them by the composed matrix, for all transforms of points |
| `BoundingBox.NestedIsFlat` | core.go:405-422 | the nested box is that of the vertices through the composed matrices exactly if those reach as far as the points kept |
| `BoundingBox.ModelNestedIsFlat` | core.go:236-260 | the same of the box of the build |
| `BoundingBox.SamePoints` | core.go:413-419 | the code comes to the vertices that are really below an object if its components, and all below, leave out the path only where it means the root part |
| `BoundingBox.SameBuildPoints` | core.go:248-255 | the same of the build |
| `BoundingBox.TrulyRightExactly` | core.go:405-422 | whatever paths are missing: the box is that of what is really below exactly if that reaches as far as the points kept |
| `BoundingBox.ModelTrulyRightExactly` | core.go:236-260 | the same of the box of the build |
| `BoundingBox.PartsAreMixedUp` | core.go:249 | an object of another part that gets the box of an object of the root part, which is not that of what is really below it |
| `BoundingBox.OriginIsLost` | core.go:415-418 | a moved part at the origin that is missing from the box |
| `BoundingBox.HollowSpreads` | core.go:405-422 | a part with components and no points that makes the box the whole range |
| `Stl.MeshBuilder.AddVertex` | core.go:511-523 | agrees with a linear search for the least index in the cell, appends only if there is none, and keeps the tree exact |
| `Stl.MergedKeeps` | core.go:511-523 | earlier vertices never change, and no two added vertices share a cell |
| `Stl.IndexIsLeast` | math.go:65-68 | the index a point got is, in the final mesh, the least of a vertex in its cell |
| `Stl.MergesExactly` | math.go:47-54 | two points get the same vertex exactly if they share a cell, and it is within a cell's width of both on every axis |
| `Stl.CellExactly` | math.go:47-54 | two points share a cell exactly if they are in the same micron on every axis |
| `Stl.DecodeBinary` | importer/stl/binary.go:31-59 | from the bytes: vertices and triangles of the faces up to the count or the end of the input, and failure exactly if the input ends before the header or the last face |
| `Stl.ReadLowFirst` | importer/stl/binary.go:34 | a number written low byte first is read back |
| `Stl.DecodeFace` | importer/stl/binary.go:61-68 | three merged corners and one triangle more |
| `Stl.DecodeAscii` | importer/stl/ascii.go:22-58 | every three vertex lines make a triangle, wherever they stand; one or two left over do not; the scanner's error is returned |
| `Stl.CornersAreNear` | importer/stl/ascii.go:29-38 | every corner of every triangle is a vertex in the cell of the point the input gave for it |
| `Stl.PointsDetermineTriangles` | importer/stl/decoder.go:46-52 | text and binary files with the same corners give the same triangles |
| `StlFiles.FileIsRead` | importer/stl/binary.go:14-56 | of a file written as a title of 80 bytes, the number of its faces, and for each its normal, its corners and two bytes, cut off anywhere: that number is read, and of every face that is there in full exactly its corners |
| `StlFiles.TrianglesOfFaces` | importer/stl/binary.go:61-68 | the mesh has one triangle for every face, in order, each corner in the cell of the one of the face |
| `StlFiles.ImportBinary` | importer/stl/binary.go:31-59 | a whole file is imported into an empty mesh without an error, as a triangle for every face that was written, each corner where it was |
| `StlFiles.TextFileMeans` | importer/stl/ascii.go:28-38 | of a text file with any faces and normals exactly the corners of the faces are read, in order |
| `Resources.UnusedID` | core.go:138-163 | the first gap in the sorted IDs with zero, cut to 32 bits |
| `Resources.UnusedExactly` | core.go:151-162 | that is the least unused ID exactly if zero and every lower ID but the last are met once |
| `Resources.DistinctGivesLeast` | core.go:137-163 | with non-zero, distinct IDs it always is; this is more than validation demands |
| `Resources.ImportID` | importer/stl/decoder.go:53-57 | an import keeps all IDs non-zero and distinct, so imports can be repeated |
| `Resources.ValidateIDs` | validate.go:163-198 | over assets and objects together, reports nothing exactly if no ID but zero is met twice and none is zero where the kind of resource checks it |
| `Resources.ValidatedExactly` | core.go:137-163 | of resources that validate, UnusedID returns the least unused ID exactly if none has ID zero or none has ID one |
| `Resources.UnknownAssetMisleads` | core.go:137-163 | an unknown asset without an ID and an object with ID 1 validate, and the ID returned is 1; with it they validate no more |
| `Resources.ZeroMisleads` | core.go:142-162 | an asset without an ID makes it return an ID in use |
| `Elision.WriteTriangles` | encoder.go:455-495 | every triangle is written from its own values, none left over from the one before in the reused attributes |
| `Elision.ReadTriangle` | decoder.go:499-550 | the last value of each attribute, defaults for those missing, and one error per bad value |
| `Elision.FaceRoundTrip` | decoder.go:539-544 | a triangle is read back exactly if it has a property, or the object has none and its indices are the default; re-encoding always gives the same attributes |
| `Elision.FacesRoundTrip` | encoder.go:472-491 | the same for whole lists |
| `Elision.WriteSegments` | slices/encoder.go:78-92 | every segment from its own values |
| `Elision.ReadSegment` | slices/decoder.go:274-307 | the last value of each attribute, p2 following p1 until it is given |
| `Elision.SegmentRoundTrip` | slices/decoder.go:296-298 | a segment is read back exactly if it has a property or both indices are zero; re-encoding always gives the same |
| `Elision.WriteBeams` | beamlattice/encoder.go:75-98 | for every beam: radii that are positive and not the lattice's, caps that are not the lattice's |
| `Elision.ReadBeam` | beamlattice/decoder.go:122-189 | values in order of the attributes, then the defaults, the second radius after the first; one error per number that does not parse, with the index of the beam; the beam joins the others all the same |
| `Elision.BeamRoundTrip` | beamlattice/decoder.go:172-183 | exactly which beams are read back, for all radii and caps |
| `Elision.PositiveBeamRoundTrip` | beamlattice/decoder.go:172-177 | with positive radii: exactly if the first is the lattice's or the second is not |
| `Elision.BeamReencoded` | beamlattice/encoder.go:75-98 | re-encoding gives the same attributes exactly if the second radius was written wherever the first was |
| `Elision.BeamsRoundTrip` | beamlattice/encoder.go:75-98 | a list of beams is read back exactly if each of them is |
| `Attributes.FaceMeans` | decoder.go:499-550 | in any attributes: of each name the last counts; a missing index is zero, a missing property that of the object, and p2 and p3 follow p1 |
| `Attributes.SegmentMeans` | slices/decoder.go:274-307 | in any attributes of a segment: the same, p2 following p1 |
| `Attributes.TriangleFaults` | decoder.go:499-537 | an attribute of a triangle is reported exactly if it does not parse, as optional if it is a property or one of its indices, as required otherwise |
| `Attributes.SegmentFaults` | slices/decoder.go:274-295 | likewise of a segment, where only the vertex is required |
| `Attributes.BeamFaultsAre` | beamlattice/decoder.go:122-170 | likewise of a beam, with its index: the vertices as required, the radii as optional; cap modes are never reported |
| `Attributes.FaultsInOrder` | decoder.go:499-537 | there is one report for each attribute that does not parse, in their order |
| `Attributes.BeamMeans` | beamlattice/decoder.go:122-189 | in any attributes: of each name the last counts; what is missing or zero is taken from the lattice, a second radius from the first |
| `Attributes.FaceIsShortest` | encoder.go:472-491 | a triangle without a property is written as its vertices, any other with the least number of attributes that say all |
| `Attributes.SegmentIsShortest` | slices/encoder.go:78-92 | likewise of a segment with a property |
| `Attributes.BeamIsShort` | beamlattice/encoder.go:75-98 | of a beam, exactly the radii that are positive and not the lattice's are written, and the caps that are not the lattice's |
| `Slices.ValidateSlices` | slices/validate.go:85-118 | the faults of every slice, in order |
| `Slices.ValidateSlicesExactly` | slices/validate.go:85-118 | none exactly if the slices rise strictly, lie at or above the bottom, and are complete or empty |
| `Slices.SliceFaultsAre` | slices/validate.go:85-118 | each kind of fault is reported of a slice exactly if: its top is missing; is below the bottom; is not above the one before, or above the least float32; or it is not empty and has too few vertices, no polygon, or polygons without segments |
| `Slices.ValidateRefs` | slices/validate.go:120-158 | the faults of every reference, in order |
| `Slices.ValidateRefsExactly` | slices/validate.go:120-158 | where the referenced stacks are valid: none exactly if every reference leads to a stack without references in another part, and all their slices together rise strictly |
| `Slices.RefFaultsAre` | slices/validate.go:120-158 | each kind of fault is reported of a reference exactly if: it has no path; it is to the same part; it has no ID; nothing is found, or no stack, or one with references, or one that does not begin above the last that was found |
| `Slices.CleanRefsFormOneStack` | slices/validate.go:120-158 | then the joined slices rise, without further references, each at or above the bottom of its own stack |
| `Slices.CheckAllClosed` | slices/validate.go:171-186 | true exactly if every polygon of the stack and of the stacks it refers to ends where it starts |
| `BuildTransforms.ValidateObjectTransforms` | slices/validate.go:208-229 | the recursion, which ends because ranks fall, computes TreeFine |
| `BuildTransforms.TreeFineExactly` | slices/validate.go:208-229 | which is true exactly if no object that can be reached turns the target out of its plane |
| `BuildTransforms.ValidateBuildTransforms` | slices/validate.go:188-206 | true exactly if that holds below every build item, and for the items themselves |
| `BuildTransforms.PlanarIsFine` | slices/validate.go:188-229 | in any model: an item is accepted if it, and every component of every object on any way down from it, has no transform or a planar one where it refers to the target |
| `BuildTransforms.ItemFineExactly` | slices/validate.go:188-229 | exactly then, if no object on any way down has a component with the object's own ID in the target's part |
| `BuildTransforms.ValidExactly` | slices/validate.go:13-15 | the test is passed exactly by transforms that move every point up by the same and keep points above each other above each other |
| `BuildTransforms.PlanarExactly` | slices/validate.go:195 | a transform passes if there is none, or exactly then |
| `BuildTransforms.ItemLayeredExactly` | slices/validate.go:188-229 | in these terms: an item is accepted exactly if it, and every component below it, keeps layers where it refers to the target, if no loop ends early |
| `BuildTransforms.SinglePartExactly` | slices/validate.go:188-229 | which is so in a single part where no object has a component for itself |
| `BuildTransforms.AcceptedExactly` | slices/validate.go:218-229 | an accepted item is planar with all below it exactly if what the loops leave out when they end early is |
| `BuildTransforms.EarlyEndHides` | slices/validate.go:218-219 | across parts: a model that is accepted although a component turns an object of the target's part |
| `BuildTransforms.SelfReferenceHides` | slices/validate.go:218-220 | in a single part: an object with a component for itself is accepted although the next component turns the target |
| `BuildTransforms.TrulyPlanarExactly` | slices/validate.go:188-229 | with missing paths read as the part they stand in: the answer is exact if only references from the target's part lack a path, and no loop ends early |
| `BuildTransforms.MissingPathMisleads` | slices/validate.go:190-193 | an item without a path that stands for a turned object of the root part makes the object with that ID in another part fail |

## Left out

- Packaging: zip files, OPC parts and relationships, files, and the opening of several parts at once.
- Context cancellation; goroutines are an arbitrary order of arrival in ModelBoundingBox.
- Floating point: coordinates, radii and heights are real numbers, without rounding, overflow, NaN or infinities. Number texts in attributes are exact.
- int64 overflow of the cells of far-away vertices: cells are unbounded integers.
- XmlDecoder.Decoder: the reuse of the attribute slice and of the strings handed to callbacks is not modelled; attributes are values.
- XmlDecoder.Decoder.ReadText: bytes from 0x80 on are copied, and code points are not validated, as in the code.
- Printer.XmlPrinter.EscapeString: models the replacements of the standard library's EscapeText for legal characters; its replacement of illegal ones is not part of this model.
- pushEOF and popEOF: nothing calls them.
- RoundTrip.ReadPrinted: asks that what is written for a name is a name; Survival.UnprefixedIsMalformed shows what becomes of the names that are not.
- Documents.DocRoundTrip: declarations stand on the root only, each prefix once, and never the prefixes xml and xmlns; local names are names without a colon. RoundTrip.ReadPrinted and RoundTrip.DocExactly ask for none of that.
- UnknownElements.EncodeAny: over unknown elements, which are written without an error; an extension that fails is passed over.
- Handlers.Machine: what handlers do is a function of all that was called on them before, which they can share; a child that is asked for and not given is not a call. Their errors are leaves, and Errors shows that lists and wrapped errors on the heap are such leaves.
- Error texts, and the sorting of lists by text.
- Coherency.ValidateCoherency: asks that three times the number of triangles fits into 32 bits, as the counters do.
- Stl.MeshBuilder.AddVertex: asks that the number of vertices fits into 32 bits; with calculateConnectivity turned off it promises the appended vertex only.
- Stl.DecodeAscii: lines come split into fields, numbers through a function for ParseFloat, whose errors the code ignores; the mesh starts without triangles, as the importer calls it.
- Stl.DecodeBinary: which number 32 bits are is a function parameter; the reader's error is only told from success.
- BoundingBox.RightExactly: asks for coordinates in the range of float32 and transforms with one input axis per output axis at every level; Transforms.ExactIffMonomial shows that other transforms fail for some points.
- BoundingBox.ObjectBoundingBox: asks for a rank that falls along components, as SamePoints does along those of all parts; validation does not reject cycles of more than one object.
- BuildTransforms.ValidateBuildTransforms: asks for a rank that falls along the components that the loops go down into, for the same reason.
- Elision.ReadBeam: a radius out of the range of float32 is not modelled as an infinity.
- Slices.ValidateRefs: finding an asset is a function parameter. That a stack has either slices or references, and all other checks of an asset, are left out.
- Resources.ValidateIDs: whether a kind of resource checks its ID is given with it; the rest of the resource, object and mesh checks would add easy members only.
- Material validators, colours, UUIDs, enumerations and the extension registry.
- Slices.Slice: of its vertices only the number matters here, of a segment only its end.
