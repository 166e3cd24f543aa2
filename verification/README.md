# A verified model of the dense algorithms in this collection of C++ libraries

The repository collects independent C++ libraries. This project models their small, stateful algorithms in Dafny 4.11
and proves what they are for. `dafny verify dfyconfig.toml` checks everything.

| component | files | main results |
|---|---|---|
| tinyxml2, parser and printer | `XmlText`, `XmlStrPair`, `XmlParse`, `XmlDocument`, `XmlLayout`, `XmlPrinter`, `XmlRoundTrip`, `XmlParsed`, `XmlTags`, `XmlTables`, `XmlSyntax` | every parsed text has balanced tags; exactly which trees survive printing and parsing, and which texts parsing, printing and parsing, in every mode; the recursive parser on the buffer that it terminates while it reads; in-place decoding and collapsing |
| tinyxml2, memory and tree | `DynArray`, `Pool`, `XmlDom` | the pool never hands out a live item; every insertion, move and deletion keeps a well-formed forest |
| multipart parser | `MultipartMachine`, `Multipart`, `MultipartPart`, `MultipartRoundTrip`, `MultipartOverflow`, `MultipartErrors` | skip, marks and lookbehind buffer do what a character machine does; under every chunking a message is decoded exactly if its bodies are readable; when the parser throws |
| picohttpparser | `Chunked`, `ChunkedRoundTrip`, `ChunkedSyntax`, `HttpRequest`, `HttpRoundTrip`, `HttpErrors`, `HttpParser`, `HttpPipelining` | the in-place decoder refines a transducer and gives back what the server's encoder sends; request parsing is stable as bytes arrive and undoes writing; which requests behind others are accepted |
| integer to decimal | `Ascii`, `Numerals`, `Jeaiii`, `Itoa` | both libraries write the decimal form, over the whole machine range |
| SHA-1 | `Sha1`, `Sha1Stream`, `Sha1Vector` | the unrolled rounds and the buffered stream against RFC 3174, and its test vector |
| concurrency | `ThreadPool`, `Sender` | inductive invariants over every interleaving, and termination of the destructor |
| logs and configuration | `Logger`, `Config`, `ConfigRoundTrip`, `ConfigFile`, `ConfigLines` | rotation loses only whole oldest files; printing a configuration and parsing it is the identity |

How the model is laid out. Code that changes things in place is a class or a method over an array, proved equal to a
function of the old contents (`XmlStrPair.DecodeInPlace`, `Chunked.ChunkedDecoder.Decode`, `Sha1.Transform`); the promises
are then lemmas about that function (`XmlText.DecodeUndoesEscape`, `Chunked.RunInPieces`). Classes keep a `Valid()` that ties
their fields to an abstract value: the chain and the live set of the pool, the forest of the document, the character
machine of the multipart parser, the message of the hash. Protocols are state machines over their atomic steps. Machine
widths are written out with remainders where they matter and are 64 bits for `size_t`. Exceptions and error returns are
results. Character classes, digit values and other tables that the code and its specification share are pinned one by one
by lemmas that do not use them (`XmlTables`, `HttpRoundTrip.TokenTable`, `ChunkedRoundTrip.HexDigitTable`). The file system of the logger is a map from names to contents, the end of a network write is a step, and the
conversion of a length to hexadecimal by the standard library is a parameter that may be any right one; division by sixteen
is shown to be one (`ChunkedRoundTrip.HexIsRight`).

Some results are not what one would expect from the names or the documentation, and the model follows the code:

- `TINYXML2_MAX_ELEMENT_DEPTH` is 100, and 98 nested elements with children is the most that parses: the document takes a
  level and the tracker refuses the hundredth (`XmlRoundTrip.ParseUndoesPrint` gives both directions).
- Indented printing, the default of the printer, indents an element even behind a text, and the blanks come back inside the
  text (`XmlRoundTrip.MixedContentGrows`), exactly if a text is directly followed by an element. A reader that collapses
  white space takes them off again (`XmlRoundTrip.RoundTrip`).
- The printer writes carriage returns and blank texts as they are, and the parser normalises the first and skips the second.
  So a parsed document does not always survive printing (`XmlParsed.ReturnIsLost`, `XmlParsed.BlankIsLost`), and
  `XmlParsed.PrintAfterParse` says exactly when.
- A decimal character reference wraps around at 32 bits digit by digit, so it is its value exactly if no single digit weighs
  2^32 or more, and a hexadecimal one is taken modulo 2^32 (`XmlText.WeightedValue`; inputs in `XmlText.DecimalWraps` and
  `XmlText.HexWraps`).
- `InsertAfterChild` is meant to move a child behind any other. If the child is the last and already stands there, the code
  follows a null pointer, and only then (`XmlDom.XMLNode.InsertAfterChild`, with an input in
  `XmlDom.LastBehindItsNeighbour`).
- A last multipart body that holds the delimiter followed by a lone carriage return leaves a flag set that makes the end of
  the message part of the data (`MultipartRoundTrip.StaleFlagHidesTheEnd`); section 5.1.1 of RFC 2046 excludes such bodies.
  A delimiter followed by any other character but two hyphens is harmless, and `MultipartRoundTrip.DecodeMessage` has the
  exact condition.
- A multipart header without a colon whose name is nine characters longer than the delimiter makes the parser throw, and
  nothing else does (`MultipartOverflow.OverflowsExactly`, `MultipartOverflow.ColonIsMissing`). With four to eight characters
  more the parser never leaves the part again (`MultipartOverflow.PartNeverEnds`): its index is then too far behind the
  boundary to match it again, and it gets there in no other way (`MultipartOverflow.JamsExactly`).
- With pipelining the position of the next request is passed as `last_len`, and the quick look for its end begins three bytes
  before it, in the body of the last request. A carriage return there without its line feed makes the parser refuse a good
  request (`HttpPipelining.BodyEndsWithReturn`), and nothing else does (`HttpPipelining.AcceptedBehind`). Without one the
  quick look changes the answer to malformed and incomplete requests only (`HttpPipelining.AnswersBehind`).
- A thread pool without workers returns from its destructor with accepted tasks that never run (`ThreadPool.NoWorkersNoRun`).
- For an unknown entity `GetStr` steps over a place in the buffer without writing it; the specification of decoding says
  which stale character is left there (`XmlText.StaleCharacter`).
- The size counter of the logger adds two for the line end and the file grows by one, so files end early and never late.

## Model

| member | source | states |
|---|---|---|
| `XmlText.DecodeUndoesEscape` | xml/tinyxml2.cpp:2564-2616 | for every text and either escape set, decoding what `PrintString` writes gives the text back, with a line feed for every line end when the reader normalises them |
| `XmlText.NewlinesIsIdentityIff` | xml/tinyxml2.cpp:280-304 | normalising line ends leaves a text alone exactly if it has no carriage return |
| `XmlText.DecodeRaw` | xml/tinyxml2.cpp:267-365 | without entities, as in comments and CDATA sections, decoding is the normalisation of line ends |
| `XmlText.EscapeShape` | xml/tinyxml2.cpp:2564-2616 | escaping leaves none of the characters of its set but the ampersands of the entities, brings in no other new character than entity letters and semicolons, and never shortens |
| `XmlText.EscapeConcat` | xml/tinyxml2.cpp:2564-2616 | escaping works character by character: the escape of a concatenation is the concatenation of the escapes |
| `XmlText.CharacterRefValue` | xml/tinyxml2.cpp:456-549 | a numeric reference of any number of hexadecimal or decimal digits is read to its semicolon and becomes the UTF-8 form of the sum of its digit weights, each taken modulo 2^32 and the sum modulo 2^64 |
| `XmlText.WeightedValue` | xml/tinyxml2.cpp:456-549 | that sum is the value modulo 2^32 in hexadecimal; in decimal it is the value exactly if no digit weighs 2^32 or more, which holds for every value below 2^32 whatever zeros stand in front |
| `XmlText.DecimalWraps` | xml/tinyxml2.cpp:519-541 | the reference `&#5000000000;` wraps around to nothing that can be encoded and gives no bytes |
| `XmlText.HexWraps` | xml/tinyxml2.cpp:484-517 | the reference `&#x100000041;` wraps around and gives `A` |
| `XmlText.StaleCharacter` | xml/tinyxml2.cpp:332-355 | `&lt;&x;` is shown as `<lx;`: the place of an unknown entity keeps what was in the buffer |
| `XmlText.Utf8RoundTrip` | xml/tinyxml2.cpp:403-453 | a value is laid out so that it reads back, in the fewest bytes, exactly if it is below 0x200000 (the layout of section 3 of RFC 3629); any other value gives no bytes |
| `XmlStrPair.CollapseShape` | xml/tinyxml2.cpp:238-264 | collapsing keeps all ink in order and leaves single blanks between words and none at the ends |
| `XmlStrPair.CollapseIsIdentityIff` | xml/tinyxml2.cpp:238-264 | collapsing leaves a text alone exactly if it is collapsed already |
| `XmlStrPair.GetCharacterRef` | xml/tinyxml2.cpp:456-549 | the search for the semicolon and the backward scan over the digits read the reference that the specification reads, on the buffer itself |
| `XmlStrPair.Turn` | xml/tinyxml2.cpp:267-365 | one turn of the decoding loop reads and writes what one step of the specification does, on a buffer whose part before `q` has been overwritten |
| `XmlStrPair.DecodeInPlace` | xml/tinyxml2.cpp:267-365 | decoding newlines and entities in place never lets the write pointer pass the read pointer and leaves exactly the decoded text, NUL-terminated, and nothing else changed; for an unknown entity this includes the stale character that the code skips over |
| `XmlStrPair.CollapseWhitespace` | xml/tinyxml2.cpp:238-264 | the in-place loop leaves the collapsed text, within the old bounds |
| `XmlStrPair.Flush` | xml/tinyxml2.cpp:267-365 | the first `GetStr` with all its flags leaves the text that the flags call for |
| `XmlStrPair.StrPair.GetStr` | xml/tinyxml2.cpp:267-365 | the text of a piece is the same before the first call, after it and after any other; only the bytes of the piece change |
| `XmlDocument.ParseTextAt` | xml/tinyxml2.cpp:193-215 | text up to an end tag is cut at the first place where the tag stands, on a buffer that is intact from there on |
| `XmlDocument.ParseNameAt` | xml/tinyxml2.cpp:218-235 | a name is the longest run of name characters |
| `XmlDocument.ReadAttribute` | xml/tinyxml2.cpp:1378-1403 | name, equals sign, quote and value of one attribute become two pieces, the end of the name in front of the value, or fail as specified |
| `XmlDocument.GetName` | xml/tinyxml2.cpp:267-365 | a name that is asked for gets its NUL in the buffer that is still being parsed and is read; no other character changes |
| `XmlDocument.FindAttribute` | xml/tinyxml2.cpp:1552-1560 | the names before are compared one by one, each terminated; all pieces of the tag stay intact |
| `XmlDocument.XMLDocument.ReadAttributes` | xml/tinyxml2.cpp:1885-1942 | the attributes of a tag, how the tag ends, and the error of a malformed or repeated one; names are terminated on the way and what is still to be read is untouched |
| `XmlDocument.XMLDocument.ReadNode` | xml/tinyxml2.cpp:1169-1339 | the raw kinds of node become pieces up to their end tags and elements are parsed deep; the pieces are disjoint, with room for a terminator behind each, and intact |
| `XmlDocument.XMLDocument.ReadElement` | xml/tinyxml2.cpp:1968-1993 | an element reads its tag and, if open, its children from the rest of the buffer; the depth is what it was |
| `XmlDocument.XMLDocument.ReadLoop` | xml/tinyxml2.cpp:1010-1122 | the child loop: a closing tag read by a child is handed up, mismatched and misplaced nodes are errors, and comparing names spoils neither earlier children nor what follows |
| `XmlDocument.XMLDocument.Mismatched` | xml/tinyxml2.cpp:1097-1112 | end tag and name are terminated and compared in place |
| `XmlDocument.XMLDocument.ReadChildren` | xml/tinyxml2.cpp:1010-1122 | the depth tracker refuses the hundredth level and is wound back on every path |
| `XmlDocument.XMLDocument.ReadDocument` | xml/tinyxml2.cpp:2355-2464 | the recursive parser on one buffer that it terminates while it reads computes the specified document or error, whatever the text, ends at depth 0, and leaves every piece of the tree disjoint from the others and intact |
| `XmlDocument.ReadPiece` | xml/tinyxml2.cpp:267-365 | whichever piece of the tree is decoded in place first, its reader sees the specified text and every other piece can still be read |
| `XmlDocument.XMLDocument.ParseAndShow` | xml/tinyxml2.cpp:2355-2464 | parsing in place and then reading the whole tree in place gives the specified document |
| `XmlDocument.AttributeNameIsBehind` | xml/tinyxml2.cpp:1378-1403 | when the names of a tag are compared the attribute has been read past the end of its name, so the NUL that ends the name falls on no character still to be read |
| `XmlDocument.ElementNameIsBehind` | xml/tinyxml2.cpp:1010-1122 | the same for the names of an element and of an end tag when they are compared |
| `XmlRoundTrip.ParseUndoesPrint` | xml/tinyxml2.cpp:1010-1122 | for every good and clean tree of elements, attributes, texts, CDATA, comments, unknowns and leading declarations, with or without byte order mark, parsing what the compact printer writes rebuilds the tree if at most 98 elements with children are nested, and otherwise reports that the depth is exceeded |
| `XmlRoundTrip.ParsePrinted` | xml/tinyxml2.cpp:2631-2925 | in either mode of the printer and of the reader, and from any initial indentation, what is parsed is the printed tree without its blank texts, with line ends normalised, and with each text in front of an element longer by the blanks that indent the element; or the depth is exceeded |
| `XmlRoundTrip.RoundTrip` | xml/tinyxml2.cpp:2631-2925 | a good tree comes back exactly if the nesting is at most 98, no text or attribute value has a carriage return, no text is blank, and its white space suits both sides: collapsed texts for a reader that collapses, otherwise no text directly in front of an element when the printer indents |
| `XmlRoundTrip.MixedContentGrows` | xml/tinyxml2.cpp:2638-2643 | a tree that does not come back: the text `x` in front of an element, in an element, is printed with four blanks and read back with them |
| `XmlLayout.ReturnedIsSame` | xml/tinyxml2.cpp:2631-2650 | what comes back of a tree is the tree exactly if it is clean and its white space suits the mode of the printer and that of the reader, at any level |
| `XmlLayout.TextComesBack` | xml/tinyxml2.cpp:238-264 | one text with a gap behind it: it comes back exactly without carriage returns and, for a reader that collapses, if it is collapsed, for any other if there is no gap |
| `XmlRoundTrip.NodePrinted` | xml/tinyxml2.cpp:678-745 | one printed node that is not text, at any depth, in either mode and with anything behind it, is read back with exactly what was behind it left over, or exceeds the depth |
| `XmlRoundTrip.NodesPrinted` | xml/tinyxml2.cpp:1010-1122 | printed siblings, with the white space between them, are read back one by one up to whatever ends them |
| `XmlRoundTrip.ParseAttributePrinted` | xml/tinyxml2.cpp:1378-1403 | a printed attribute is read back, whatever its value, with line ends normalised |
| `XmlRoundTrip.ParseAttributesPrinted` | xml/tinyxml2.cpp:1885-1942 | printed attributes with distinct names are read back in order |
| `XmlRoundTrip.TextPrinted` | xml/tinyxml2.cpp:1169-1193 | an escaped text with ink in it is identified as text and read back as its reader sees it |
| `XmlRoundTrip.TextRead` | xml/tinyxml2.cpp:1169-1193 | a text is read back with the blanks in front of the element behind it, or skipped if it is blank, and the loop goes on with that element |
| `XmlRoundTrip.LeafPrinted` | xml/tinyxml2.cpp:678-745 | a printed comment, CDATA section, declaration or unknown is identified as what it is and read back |
| `XmlParsed.ParsedIsGood` | xml/tinyxml2.cpp:1010-1122 | whatever the text, a parsed document has good names, distinct attribute names, no end tag inside the raw kinds, no two texts side by side, declarations first and only at the top, at most 98 nested elements with children, and collapsed texts if the reader collapses |
| `XmlParsed.LoopIsGood` | xml/tinyxml2.cpp:1010-1122 | every turn of the child loop keeps that of the children so far |
| `XmlParsed.RawIsGood` | xml/tinyxml2.cpp:193-215 | what is cut out in front of an end tag does not hold the tag, before and after its line ends are normalised |
| `XmlParsed.RoundTripsExactly` | xml/tinyxml2.cpp:2631-2925 | over all trees without text at the top, whatever their names and values: printing and parsing gives the tree back exactly if it is good, clean, suited and not nested too deeply |
| `XmlParsed.PrintAfterParse` | xml/tinyxml2.cpp:2631-2925 | for every text that parses, without text at the top: printing the document and parsing again gives the document back exactly if it is not empty and clean and, unless the reader collapses or the printer is compact, has no text directly in front of an element |
| `XmlParsed.OneText` | xml/tinyxml2.cpp:1169-1193 | one text inside an element is read as its reader sees it |
| `XmlParsed.ReturnIsLost` | xml/tinyxml2.cpp:2564-2616 | a text that does not survive: `<a>x&#xD;</a>`, whose carriage return is printed as it is and read as a line feed |
| `XmlParsed.BlankIsLost` | xml/tinyxml2.cpp:2564-2616 | another: `<a>&#x9;</a>`, whose tab is printed as it is and taken for the white space in front of a tag |
| `XmlTags.TagsAreBalanced` | xml/tinyxml2.cpp:1010-1122 | whatever the text, when it parses, its tags, read off without building a tree, are properly nested and each begin tag is closed by the end tag of its own name, up to the end of the text or to an end tag that closes nothing |
| `XmlTags.UnbalancedIsRefused` | xml/tinyxml2.cpp:1097-1117 | a text whose tags are not so is refused |
| `XmlTags.EndTagDecides` | xml/tinyxml2.cpp:1097-1117 | an element with any attributes and children, printed in either mode but closed by any name: it is read if the name is its own, and the error is that of mismatched elements if not |
| `XmlTags.LoopTags` | xml/tinyxml2.cpp:1010-1122 | the siblings that one loop reads have balanced tags, and the end tag handed up is the next one |
| `XmlTables.CharacterClasses` | xml/tinyxml2.h:571-591 | white space and the characters of names, one by one |
| `XmlTables.EscapeTable` | xml/tinyxml2.cpp:129-135 | what is written for each character, in text and in attribute values, one by one |
| `XmlTables.HexDigitTable` | xml/tinyxml2.cpp:484-541 | the value of every hexadecimal digit in both cases and of every decimal digit, and no other character has one |
| `XmlTables.ReferenceIsRead` | xml/tinyxml2.cpp:456-549 | the reference to every number below 2^32, its digits found by division, in lower case, in upper case or in decimal, is read as that number |
| `XmlTables.ReferenceIsShown` | xml/tinyxml2.cpp:267-365 | and shown as the UTF-8 form of the number |
| `XmlTables.ByteOrderMark` | xml/tinyxml2.cpp:115-117 | the three bytes are U+FEFF in UTF-8 |
| `XmlSyntax.AttributeForm` | xml/tinyxml2.cpp:1378-1403 | an attribute with any white space around its equals sign and in either quote is read |
| `XmlSyntax.AttributeDefects` | xml/tinyxml2.cpp:1378-1403 | one without equals sign, without quote or without its second quote is refused |
| `XmlSyntax.TagGoesOn` | xml/tinyxml2.cpp:1885-1942 | behind any white space the next attribute is taken if its name is new, and is an error if it is not |
| `XmlSyntax.TagStops` | xml/tinyxml2.cpp:1885-1942 | and is an error if it is malformed |
| `XmlSyntax.TagEnds` | xml/tinyxml2.cpp:1885-1942 | the two ends of a tag, behind any white space |
| `XmlSyntax.TagDefects` | xml/tinyxml2.cpp:1885-1942 | a tag that is cut off or goes on with any other character is an error of the element |
| `XmlSyntax.EndTagForm` | xml/tinyxml2.cpp:1968-1993 | an end tag with white space in front of its slash and behind its name is read |
| `XmlSyntax.Unterminated` | xml/tinyxml2.cpp:1169-1339 | a comment, declaration, CDATA section or unknown without its end gives its own error |
| `XmlSyntax.TextUnterminated` | xml/tinyxml2.cpp:1169-1193 | a text that no tag follows is an error |
| `XmlSyntax.Nameless` | xml/tinyxml2.cpp:1010-1052 | a tag without a name is an error of parsing |
| `XmlSyntax.NamelessEnd` | xml/tinyxml2.cpp:1968-1993 | so is white space between the slash of an end tag and its name, or no name at all |
| `XmlSyntax.TagFails` | xml/tinyxml2.cpp:1968-1993 | the error of a tag is the error of the document |
| `XmlSyntax.AttributeTwice` | xml/tinyxml2.cpp:1899-1915 | an element with the same attribute twice is refused |
| `XmlSyntax.LateDeclaration` | xml/tinyxml2.cpp:1054-1083 | a declaration behind an element is refused |
| `XmlSyntax.EndTagAtTop` | xml/tinyxml2.cpp:1085-1095 | an end tag at the top is no error: the document ends there, whatever follows |
| `XmlSyntax.WhoseFlags` | xml/tinyxml2.h:136-150 | without entity processing values are shown with their line ends normalised only, and texts are collapsed if the document asks for it |
| `XmlSyntax.IndentedNest` | xml/tinyxml2.cpp:2631-2681 | an element in an element, written out as the default mode prints it |
| `XmlPrinter.XMLPrinter.PrintString` | xml/tinyxml2.cpp:2564-2616 | writing plain runs in one go and entities one by one writes the escaped text |
| `XmlPrinter.XMLPrinter.OpenElement` | xml/tinyxml2.cpp:2631-2649 | a pending tag is closed first; outside compact mode a new line outside text only, and indentation even inside text |
| `XmlPrinter.XMLPrinter.CloseElement` | xml/tinyxml2.cpp:2711-2736 | an element without content is closed by its own tag, any other by the end tag on the stack, on a line of its own outside text; the element whose text was written last ends the text |
| `XmlPrinter.XMLPrinter.PushText` | xml/tinyxml2.cpp:2749-2762 | text and CDATA are written as the node prints, and mark the element as text |
| `XmlPrinter.XMLPrinter.PushRaw` | xml/tinyxml2.cpp:2821-2864 | comments, declarations and unknowns are written between their marks, on a line of their own outside text |
| `XmlPrinter.XMLPrinter.VisitElement` | xml/tinyxml2.cpp:2036-2047 | in either mode a whole element is appended as its printed form, the stack is as before, and depth, text depth and first-element flag are those behind the element |
| `XmlPrinter.XMLPrinter.PrintDocument` | xml/tinyxml2.cpp:2386-2395 | in either mode the buffer ends up as the printed form of the whole document, which the round trips are about |
| `XmlPrinter.NodeAppend` | xml/tinyxml2.cpp:2036-2047 | what is printed for a node does not depend on what comes after it |
| `XmlPrinter.NodesSnoc` | xml/tinyxml2.cpp:2386-2395 | printing one more sibling appends its printed form from where the printer stands behind the others |
| `DynArray.RemovedTakesOne` | xml/tinyxml2.h:281-286 | `SwapRemove` takes out one occurrence and keeps all others |
| `DynArray.Vector.EnsureCapacity` | xml/tinyxml2.h:302-316 | growing doubles and keeps the contents |
| `DynArray.Vector.Push` | xml/tinyxml2.h:225-230 | the contents grow by the element at the end |
| `DynArray.Vector.PushArr` | xml/tinyxml2.h:232-239 | room for `count` elements behind the old contents, which stay |
| `DynArray.Vector.SwapRemove` | xml/tinyxml2.h:281-286 | the last element takes the place of the removed one |
| `Pool.MemPool.Alloc` | xml/tinyxml2.h:374-398 | never an item in use; the head of the chain, or a new block exactly if every item is in use; the invariant: the chain is acyclic and holds each free item once, live plus free is blocks times items per block, the counters are right and the number of blocks is the ceiling of the most ever live |
| `Pool.MemPool.Grow` | xml/tinyxml2.h:374-386 | a new block is needed only when the live items fill all blocks, and becomes the chain |
| `Pool.MemPool.Free` | xml/tinyxml2.h:400-411 | a live item goes to the head of the chain and stops being live; null changes nothing; the invariant stays |
| `Pool.MemPool.Clear` | xml/tinyxml2.h:354-365 | everything is given back and the empty pool is valid |
| `Pool.MemPool.Overwrite` | xml/tinyxml2.h:443-446 | whatever the owner of a live item writes into its memory, where the chain was, the pool is unharmed |
| `Pool.NextCeiling` | xml/tinyxml2.h:374-398 | one more live item keeps the number of blocks at the ceiling, with a new block exactly when all are full |
| `Pool.DistinctSize` | xml/tinyxml2.h:374-386 | a chain of distinct items has as many members as places, which is what makes the counts add up |
| `XmlDom.XMLNode.Unlink` | xml/tinyxml2.cpp:826-847 | the pointer assignments, up to seven, take the child out of its list of siblings and leave it loose |
| `XmlDom.XMLNode.Detach` | xml/tinyxml2.cpp:826-847 | on the whole forest: every other list of children, and every other node, is as before |
| `XmlDom.XMLNode.InsertChildPreamble` | xml/tinyxml2.cpp:1139-1151 | the node comes out of its old parent or off the list of unlinked nodes, whichever it was in |
| `XmlDom.XMLNode.InsertEndChild` | xml/tinyxml2.cpp:863-890 | list removal, then insertion at the end; the forest stays well formed and the unlinked list exact; a node of another document is refused and nothing changes |
| `XmlDom.XMLNode.InsertFirstChild` | xml/tinyxml2.cpp:893-921 | list removal, then insertion at the front |
| `XmlDom.XMLNode.InsertAfterChild` | xml/tinyxml2.cpp:924-957 | list removal, then insertion right after the given child; the code follows a null pointer exactly if the moved node was the last child and already stood there |
| `XmlDom.LastBehindItsNeighbour` | xml/tinyxml2.cpp:924-957 | such an input: two children inserted one after the other, then the last one inserted behind the first |
| `XmlDom.XMLNode.DeleteChild` | xml/tinyxml2.cpp:850-860 | the child and everything under it, and nothing else, leaves the forest |
| `XmlDom.XMLNode.DeleteNode` | xml/tinyxml2.cpp:1124-1137 | the destructor frees exactly the subtree of a parentless node and takes it off the list of unlinked nodes |
| `XmlDom.XMLNode.DeleteChildren` | xml/tinyxml2.cpp:816-823 | all children go with everything under them, and no node of another tree |
| `XmlDom.XMLDocument.MarkInUse` | xml/tinyxml2.cpp:2104-2115 | the node is no longer on the list of unlinked nodes, and every other one still is, once |
| `XmlDom.XMLDocument.CreateUnlinkedNode` | xml/tinyxml2.h:1961-1971 | a new node is in no tree and is listed |
| `XmlDom.XMLDocument.DeleteNode` | xml/tinyxml2.cpp:2219-2234 | wherever the node is, exactly it and its descendants die, and the list of unlinked nodes stays the list of live parentless ones |
| `XmlDom.XMLDocument.Clear` | xml/tinyxml2.cpp:2117-2130 | every node of every tree dies, unlinked ones included, and the document is empty and valid |
| `XmlDom.MoveKeepsRanks` | xml/tinyxml2.cpp:863-957 | moving a node anywhere but under itself or a descendant leaves the forest acyclic |
| `XmlDom.SkippingIsFamily` | xml/tinyxml2.cpp:826-847 | a list whose pointers pass over one place is the list without it |
| `XmlDom.PartingIsFamily` | xml/tinyxml2.cpp:863-957 | a list whose pointers part around a new node is the list with it |
| `XmlDom.AfterFacts` | xml/tinyxml2.cpp:924-957 | after the moved node is out, the given child is the last one only if it was, or if the moved node was last and right behind it |
| `XmlDom.SubtreeIsDescendants` | xml/tinyxml2.cpp:1124-1137 | what a deletion takes, closed downwards and connected to its root, is the set of descendants |
| `XmlDom.NoOrphans` | xml/tinyxml2.cpp:2117-2130 | a forest whose only root has no children is that root: nothing leaks |
| `MultipartMachine.SkipIsSafe` | cinatra/include/cinatra/multipart_parser.hpp:318-336 | a block as long as the boundary whose last character is not in the boundary is data, and no boundary begins in it |
| `MultipartMachine.ControlStep` | cinatra/include/cinatra/multipart_parser.hpp:68-201 | where a character takes the parser, an error and the exception included, depends on its state, index and flags and not on what it has read |
| `MultipartMachine.SkipStays` | cinatra/include/cinatra/multipart_parser.hpp:323-336 | the skip is safe for a parser whose marks are out of step, too |
| `MultipartMachine.RunGrows` | cinatra/include/cinatra/multipart_parser.hpp:68-201 | what the application has been told stays told over every run: its last data may be continued and events may follow |
| `MultipartMachine.RunConcat` | cinatra/include/cinatra/multipart_parser.hpp:68-201 | the character machine does not see where a piece ends |
| `MultipartMachine.EmplaceAdds` | cinatra/include/cinatra/multipart_reader.hpp:94-101 | adding a header puts its value behind those of its name and leaves all other names alone |
| `MultipartMachine.StepDataKeeps` | cinatra/include/cinatra/multipart_parser.hpp:318-433 | short of a whole boundary no character of the data is lost: what was delivered and what is withheld are the text so far |
| `MultipartMachine.RunDataKeeps` | cinatra/include/cinatra/multipart_parser.hpp:318-433 | the same over any run of fewer characters than a boundary |
| `MultipartPart.TrackedStep` | cinatra/include/cinatra/multipart_parser.hpp:318-433 | a character that does not end the part keeps the machine in step with the text: the longest beginning of a delimiter at its end is withheld, all before it is delivered, and the flag for a carriage return is set exactly if the text holds a delimiter with one behind it |
| `MultipartPart.ClosingStep` | cinatra/include/cinatra/multipart_parser.hpp:369-405 | a character that ends the part delivers the text in front of the delimiter and the end |
| `MultipartPart.LeavesEarly` | cinatra/include/cinatra/multipart_parser.hpp:318-433 | a body in which something ends the part is told with a shorter body, for good |
| `MultipartPart.BodyRead` | cinatra/include/cinatra/multipart_parser.hpp:318-433 | any other body is delivered whole up to its delimiter |
| `MultipartPart.CleanIsKept` | cinatra/include/cinatra/multipart_parser.hpp:369-405 | the condition on the last body, no delimiter followed by a carriage return or by two hyphens, is that nothing ends it and no flag is left |
| `Multipart.MultipartParser.SkipData` | cinatra/include/cinatra/multipart_parser.hpp:323-336 | the Boyer-Moore skip goes over the buffer without changing what the machine will say |
| `Multipart.MultipartParser.MatchBoundary` | cinatra/include/cinatra/multipart_parser.hpp:338-405 | matching the boundary and what may follow it moves the parser as the machine moves, from every index; the index is left alone exactly from four behind the boundary on |
| `Multipart.MultipartParser.OnWithheldData` | cinatra/include/cinatra/multipart_parser.hpp:407-433 | what was withheld is in the lookbehind buffer and goes out as data when the match fails; the buffer overflows exactly if the index is nine or more behind the boundary |
| `Multipart.MultipartParser.ProcessPartData` | cinatra/include/cinatra/multipart_parser.hpp:318-433 | one turn in part data, skip, match and fallback together, keeps parser and machine in step, and throws exactly at such an index |
| `Multipart.MultipartParser.FlushMarks` | cinatra/include/cinatra/multipart_parser.hpp:282-301 | at the end of a piece everything marked has been delivered, and the marks are ready for the next piece |
| `Multipart.MultipartParser.Feed` | cinatra/include/cinatra/multipart_parser.hpp:68-201 | for every parser state and every piece: the parser goes where the character machine goes and throws exactly when the machine overflows; unless a line end inside a header name has put its marks out of step, marks, skip and lookbehind buffer deliver what the machine delivers, with the withheld text at the front of the lookbehind buffer |
| `MultipartOverflow.OverflowsExactly` | cinatra/include/cinatra/multipart_parser.hpp:118-133 | the lookbehind buffer overflows exactly if a header begins with at least nine letters and hyphens more than the delimiter is long, a line end follows in place of the colon, and data follows that |
| `MultipartOverflow.StuckInData` | cinatra/include/cinatra/multipart_parser.hpp:396-421 | with an index from four behind the boundary on no text takes the parser out of part data |
| `MultipartOverflow.JamsExactly` | cinatra/include/cinatra/multipart_parser.hpp:118-133 | the parser stands in part data with an index from four behind the boundary on, for good, exactly if a header begins with four to eight letters and hyphens more than the delimiter is long and a line end follows in place of the colon |
| `MultipartOverflow.LongFirstName` | cinatra/include/cinatra/multipart_parser.hpp:118-133 | the two conditions on the text alone, for the first header of a message: a name without colon, four to eight longer than the delimiter, jams the parser whatever follows, and a longer one overflows |
| `MultipartOverflow.PartNeverEnds` | cinatra/include/cinatra/multipart_parser.hpp:396-421 | such an input: a header `Content-Type` without its colon, at a boundary of one character, is fed without error and leaves the parser in part data whatever follows |
| `MultipartOverflow.ColonIsMissing` | cinatra/include/cinatra/multipart_parser.hpp:407-414 | such an input: a header `Content-Length` without its colon, at a boundary of one character, makes `feed` throw |
| `Multipart.MultipartReader.OnHeaderEnd` | cinatra/include/cinatra/multipart_reader.hpp:94-101 | the value so far is added under the name so far, behind the values that are there, every other name is as before, and the next header starts empty |
| `MultipartRoundTrip.HeaderInPieces` | cinatra/include/cinatra/multipart_reader.hpp:84-101 | a name and a value that came in any pieces are joined, and the joined value is added under the joined name, behind the values that are there |
| `MultipartRoundTrip.PartsRun` | cinatra/include/cinatra/multipart_parser.hpp:81-190 | the machine reads encoded parts as exactly their headers and bodies, in order, then one end, if the bodies are readable; otherwise what it tells, and whatever may follow that, is something else |
| `MultipartRoundTrip.MessageRun` | cinatra/include/cinatra/multipart_parser.hpp:81-190 | the same for a whole message from the first boundary; a part is announced with the names of its headers, each with the values of the headers of that name in order |
| `MultipartRoundTrip.CollectIsAll` | cinatra/include/cinatra/multipart_reader.hpp:94-112 | adding headers one by one gives each name of the part with its values in order, and no other name |
| `MultipartRoundTrip.HeaderRun` | cinatra/include/cinatra/multipart_parser.hpp:112-165 | a header of letters and hyphens with any number of blanks behind its colon is told with its name and its value |
| `MultipartErrors.LetterTable` | cinatra/include/cinatra/multipart_parser.hpp:118-133 | the letters of header names, one by one |
| `MultipartErrors.NameIsRefused` | cinatra/include/cinatra/multipart_parser.hpp:112-143 | an empty header name, or one with any other character, stops the parser |
| `MultipartErrors.ValueIsRefused` | cinatra/include/cinatra/multipart_parser.hpp:151-165 | so does a carriage return in a header value without its line feed |
| `MultipartErrors.EndIsRefused` | cinatra/include/cinatra/multipart_parser.hpp:166-172 | and one behind the headers |
| `MultipartErrors.MessageIsRefused` | cinatra/include/cinatra/multipart_parser.hpp:87-111 | a message that differs from two hyphens, boundary and line end at the beginning is refused at the first character that differs |
| `MultipartRoundTrip.StaleFlagHidesTheEnd` | cinatra/include/cinatra/multipart_parser.hpp:349-405 | for every boundary, the message of one part whose body is the delimiter, a carriage return and any other character but a line feed: its end is delivered as data and the parser never ends |
| `MultipartRoundTrip.FeedAll` | cinatra/include/cinatra/connection.hpp:874-895 | the feed loop over any pieces ends as the machine on their concatenation, with its error or exception |
| `MultipartRoundTrip.DecodeMessage` | cinatra/include/cinatra/connection.hpp:874-895 | an encoded message with good headers, under every cutting into pieces, gives exactly its headers and bodies in order and one end, without an exception, if its bodies are readable, and never otherwise: nothing ends a body early, and no delimiter in the last one is followed by a carriage return |
| `Chunked.RunInPieces` | cinatra/include/cinatra/picohttpparser.h:556-669 | decoding A and then B is decoding A followed by B when the first call asks for more, and B makes no difference otherwise |
| `Chunked.RunKeepsValid` | cinatra/include/cinatra/picohttpparser.h:556-669 | the running count of hexadecimal digits never exceeds sixteen and the size never overflows 64 bits |
| `Chunked.SixteenDigitsFit` | cinatra/include/cinatra/picohttpparser.h:562-582 | sixteen hexadecimal digits fit into the 64-bit count |
| `Chunked.MoveDown` | cinatra/include/cinatra/picohttpparser.h:604-620 | moving bytes down inside the buffer keeps them and touches nothing else |
| `Chunked.ChunkedDecoder.Decode` | cinatra/include/cinatra/picohttpparser.h:556-669 | the in-place decoder is the byte transducer: same state, same output at the front of the buffer, what was not read right behind it, same result code, `dst` never past `src` |
| `Chunked.ChunkedDecoder.ReadSize` | cinatra/include/cinatra/picohttpparser.h:562-582 | the loop over the size line reads what the transducer reads |
| `Chunked.ChunkedDecoder.ReadData` | cinatra/include/cinatra/picohttpparser.h:604-620 | chunk data is moved down as the transducer writes it, whole or as far as the buffer goes |
| `ChunkedRoundTrip.Response.ToChunkedBuffers` | cinatra/include/cinatra/response.hpp:246-267 | the buffers joined are size line, data and the last chunk at the end |
| `ChunkedRoundTrip.EncodeFront` | cinatra/include/cinatra/response.hpp:246-267 | the bytes of one call do not depend on what is sent behind them |
| `ChunkedRoundTrip.SendAll` | cinatra/include/cinatra/response.hpp:246-267 | the joined buffers of one call for each byte string, with the end in the last call, followed by the tail are the encoded message |
| `ChunkedRoundTrip.DecodeUndoesEncode` | cinatra/include/cinatra/response.hpp:246-267 | for every list of byte strings sent and every tail, the decoder gives their concatenation and leaves exactly the tail (section 4.1 of RFC 7230) |
| `ChunkedRoundTrip.DecodeEncoded` | cinatra/include/cinatra/picohttpparser.h:556-669 | the same for the in-place decoder: the return value is the length of the tail, the data is at the front and the tail right behind |
| `ChunkedRoundTrip.SendAndDecode` | cinatra/include/cinatra/picohttpparser.h:556-669 | the encoder called once for each byte string and the decoder in place on the joined buffers and any tail: the data is at the front, the tail right behind, and its length is returned |
| `ChunkedRoundTrip.HexDigitTable` | cinatra/include/cinatra/picohttpparser.h:538-552 | the decoder knows every digit by its place in the tables of both cases, and nothing else |
| `ChunkedRoundTrip.HexIsRight` | cinatra/include/cinatra/utils.hpp:429-433 | the digits found by dividing by sixteen are right for every length below 2^64, in lower case as the stream of the server writes them, and in upper case |
| `ChunkedRoundTrip.SendAndDecodeHex` | cinatra/include/cinatra/picohttpparser.h:556-669 | encoder and decoder together with those digits |
| `ChunkedSyntax.MessageIsDecoded` | cinatra/include/cinatra/picohttpparser.h:556-669 | every chunked message, with leading zeros, either case, extensions, any carriage returns in front of the line feeds, and trailers, is decoded to its data and what follows is left (section 4.1 of RFC 7230) |
| `ChunkedSyntax.FrontIsDecoded` | cinatra/include/cinatra/picohttpparser.h:556-669 | a decoder that does not consume trailers stops behind the last size line |
| `ChunkedSyntax.DecodeMessage` | cinatra/include/cinatra/picohttpparser.h:556-669 | the same for the decoder in place |
| `ChunkedSyntax.NoDigit` | cinatra/include/cinatra/picohttpparser.h:563-581 | a size line without a digit is an error |
| `ChunkedSyntax.TooManyDigits` | cinatra/include/cinatra/picohttpparser.h:563-581 | so is a seventeenth digit |
| `ChunkedSyntax.NoLineEnd` | cinatra/include/cinatra/picohttpparser.h:623-637 | and data that is longer than its size |
| `HttpRequest.ParseStable` | cinatra/include/cinatra/picohttpparser.h:393-454 | once a buffer is accepted or refused every extension of it gets the same answer with the same slices |
| `HttpRequest.AcceptedExactlyWhenComplete` | cinatra/include/cinatra/picohttpparser.h:393-454 | every prefix shorter than an accepted request needs more bytes, and every other one gives the same answer |
| `HttpRequest.HeadersStable` | cinatra/include/cinatra/picohttpparser.h:325-391 | the same for the header lines from any position |
| `HttpRequest.TokenToEolStable` | cinatra/include/cinatra/picohttpparser.h:191-257 | the same for the rest of a line |
| `HttpParser.GetTokenToEol` | cinatra/include/cinatra/picohttpparser.h:191-257 | the scan of eight characters at a time finds what the plain scan finds |
| `HttpParser.ParseVersion` | cinatra/include/cinatra/picohttpparser.h:308-323 | the version as specified, one character after the other |
| `HttpParser.ParseHeaders` | cinatra/include/cinatra/picohttpparser.h:325-391 | the header loop gives the specified headers, slices and failures |
| `HttpParser.ParseRequest` | cinatra/include/cinatra/picohttpparser.h:393-427 | the pointer-advancing parser from the beginning of a request gives the specified request |
| `HttpPipelining.IsComplete` | cinatra/include/cinatra/picohttpparser.h:259-286 | the look for two line ends in a row, from three bytes before the request, is the specified one |
| `HttpPipelining.ParseRequestAt` | cinatra/include/cinatra/picohttpparser.h:429-454 | with any `last_len`: the quick look decides first, and then the request is parsed from that position on |
| `HttpPipelining.AcceptedBehind` | cinatra/include/cinatra/picohttpparser.h:442-453 | a request that would be accepted on its own is accepted behind others, with the same slices, exactly if none of the three bytes before it is a carriage return without its line feed, an empty line in front of which would hide it; otherwise it is refused |
| `HttpPipelining.AcceptedShape` | cinatra/include/cinatra/picohttpparser.h:393-427 | an accepted request holds no carriage return without its line feed and ends with an empty line |
| `HttpPipelining.EmptyLineIsFound` | cinatra/include/cinatra/picohttpparser.h:259-286 | over such text the quick look always succeeds |
| `HttpPipelining.BodyEndsWithReturn` | cinatra/include/cinatra/picohttpparser.h:259-286 | a good request that is refused: behind a body that ends with a carriage return and two other bytes |
| `HttpPipelining.AnswersBehind` | cinatra/include/cinatra/picohttpparser.h:429-454 | the answer to a request behind others with an undisturbed end, in all cases: that of the request alone, except that a malformed one waits until an empty line or a stray carriage return has come, and an incomplete one with such a return is refused |
| `HttpPipelining.StableBehind` | cinatra/include/cinatra/picohttpparser.h:429-454 | an answer behind others stays the same whatever follows |
| `HttpPipelining.RefusedForGood` | cinatra/include/cinatra/picohttpparser.h:429-454 | what is refused behind others, undisturbed, would not be accepted alone either, whatever follows |
| `HttpPipelining.MalformedWaits` | cinatra/include/cinatra/picohttpparser.h:429-454 | the first difference at an input: a control character |
| `HttpPipelining.IncompleteIsRefused` | cinatra/include/cinatra/picohttpparser.h:429-454 | the second difference at an input: a lone carriage return before the version |
| `HttpRoundTrip.ParseUndoesWrite` | cinatra/include/cinatra/picohttpparser.h:393-454 | every request with header names as section 3.2.6 of RFC 7230 has them, any blanks behind the colons, either line end at each line and perhaps an empty line in front, with any tail behind it, is read back as written, slice by slice, exactly if there is room for its header lines; otherwise it is refused |
| `HttpRoundTrip.RequestLineRead` | cinatra/include/cinatra/picohttpparser.h:393-427 | method, path and version of a written request line are found at their places |
| `HttpRoundTrip.LineRead` | cinatra/include/cinatra/picohttpparser.h:325-391 | a header line, or a continuation of one, is read to its end and its slices show its name and value |
| `HttpRoundTrip.LinesRead` | cinatra/include/cinatra/picohttpparser.h:325-391 | all header lines are read in order behind those read before |
| `HttpRoundTrip.TooManyLines` | cinatra/include/cinatra/picohttpparser.h:325-391 | one line more than the caller has room for is refused |
| `HttpRoundTrip.TokenTable` | cinatra/include/cinatra/picohttpparser.h:154-161 | the table of the parser marks exactly the visible characters that are no delimiters (section 3.2.6 of RFC 7230) |
| `HttpRoundTrip.ControlTable` | cinatra/include/cinatra/picohttpparser.h:199-257 | control characters and blanks, by number |
| `HttpErrors.MethodIsRefused` | cinatra/include/cinatra/picohttpparser.h:131-152 | a control character in the method is refused |
| `HttpErrors.PathIsRefused` | cinatra/include/cinatra/picohttpparser.h:131-152 | and in the path |
| `HttpErrors.VersionIsRefused` | cinatra/include/cinatra/picohttpparser.h:302-323 | what stands behind the path must be the version with one digit and a line end |
| `HttpErrors.NameIsRefused` | cinatra/include/cinatra/picohttpparser.h:325-391 | an empty header name or one with any other character is refused |
| `HttpErrors.ValueIsRefused` | cinatra/include/cinatra/picohttpparser.h:325-391 | a header value with a control character, or a carriage return without its line feed, is refused |
| `Numerals.DecimalIsTheNumeral` | cinatra/include/cinatra/itoa_jeaiii.hpp:94-132 | the decimal form that the conversions are proved against is the one digit string without leading zero that has the value |
| `Numerals.DecimalGlue` | cinatra/include/cinatra/itoa_jeaiii.hpp:105-127 | a decimal form followed by zero-padded digits is the decimal form of the whole |
| `Jeaiii.ScaleIsShift` | cinatra/include/cinatra/itoa_jeaiii.hpp:70 | the scale that the model uses for each length is the power of two of the macro |
| `Jeaiii.ReadOff` | cinatra/include/cinatra/itoa_jeaiii.hpp:69-83 | if the fixed-point number is within one unit above the quotient, its integer part is the next digits and its fraction shows the rest in the same way |
| `Jeaiii.FixedPointShows` | cinatra/include/cinatra/itoa_jeaiii.hpp:70 | for every length from 3 to 10 digits the correction terms keep the fixed-point number within that unit, and the product below 2^64 |
| `Jeaiii.LengthIsRight` | cinatra/include/cinatra/itoa_jeaiii.hpp:92 | the comparison ladder picks the number of digits |
| `Jeaiii.WriteLength` | cinatra/include/cinatra/itoa_jeaiii.hpp:74-83 | the digits read off are those of the number |
| `Jeaiii.U32ToA` | cinatra/include/cinatra/itoa_jeaiii.hpp:94-97 | exactly the decimal digits of every 32-bit number, no leading zero, nothing else written |
| `Jeaiii.I32ToA` | cinatra/include/cinatra/itoa_jeaiii.hpp:99-103 | the same for signed numbers down to the most negative |
| `Jeaiii.U64ToA` | cinatra/include/cinatra/itoa_jeaiii.hpp:105-127 | the same for every 64-bit number, from groups of eight zero-padded digits |
| `Jeaiii.I64ToA` | cinatra/include/cinatra/itoa_jeaiii.hpp:129-132 | the same for signed 64-bit numbers down to the most negative |
| `Itoa.Split2IsDivision` | cinatra/include/cinatra/itoa.hpp:100-108 | the multiplicative inverse gives quotient and remainder by 100 for every 16-bit value |
| `Itoa.Split4IsDivision` | cinatra/include/cinatra/itoa.hpp:100-108 | the multiplicative inverse gives quotient and remainder by 10000 for every 32-bit value |
| `Itoa.Itoa8` | cinatra/include/cinatra/itoa.hpp:202-209 | the decimal form of every byte, forwards or backwards |
| `Itoa.Itoa16` | cinatra/include/cinatra/itoa.hpp:192-200 | the decimal form of every 16-bit number by divide and recurse, in either direction |
| `Itoa.Itoa32` | cinatra/include/cinatra/itoa.hpp:192-200 | the decimal form of every 32-bit number, which is what `Jeaiii.U32ToA` writes |
| `Itoa.ItoaUnsigned` | cinatra/include/cinatra/itoa.hpp:215-221 | all unsigned widths, both directions |
| `Itoa.ItoaSigned` | cinatra/include/cinatra/itoa.hpp:224-259 | all signed widths, both directions, down to the most negative value; the text is the one `Jeaiii.I32ToA` writes |
| `Itoa.MagnitudeIsAbsolute` | cinatra/include/cinatra/itoa.hpp:224-259 | the wrap-around negation is the absolute value, down to the most negative |
| `Itoa.Xtoa` | cinatra/include/cinatra/itoa.hpp:268-311 | digits produced backwards and reversed in place are the numeral in the radix, terminated, for every radix from two on |
| `Itoa.ReverseInPlace` | cinatra/include/cinatra/itoa.hpp:268-311 | exchanging the ends reverses the stretch and nothing else |
| `Itoa.RadixTenIsDecimal` | cinatra/include/cinatra/itoa.hpp:268-311 | in radix ten the digits are the decimal form |
| `Itoa.RadixDigitTable` | cinatra/include/cinatra/itoa.hpp:288-295 | the digits of every radix up to 36, one by one |
| `Itoa.InRadixDenotes` | cinatra/include/cinatra/itoa.hpp:268-311 | in every radix the digits are below it, weigh the number, and do not begin with zero |
| `Sha1.ChoiceIsCh` | cinatra/include/cinatra/sha1.hpp:32-37 | the rewritten choose function is that of section 5 of RFC 3174 |
| `Sha1.MajorityIsMaj` | cinatra/include/cinatra/sha1.hpp:56-62 | the rewritten majority function is that of section 5 of RFC 3174 |
| `Sha1.NewWord` | cinatra/include/cinatra/sha1.hpp:26-30 | the word made from the circular block is the next word of the schedule of eighty |
| `Sha1.Extend` | cinatra/include/cinatra/sha1.hpp:40-46 | it may take the place of the oldest of the sixteen |
| `Sha1.Next` | cinatra/include/cinatra/sha1.hpp:32-70 | adding into one register and rotating another is one round of section 6.1 under renamed registers |
| `Sha1.R1` | cinatra/include/cinatra/sha1.hpp:40-46 | the second kind of round, with the schedule kept in sixteen words |
| `Sha1.R3` | cinatra/include/cinatra/sha1.hpp:56-62 | the majority round, likewise |
| `Sha1.Transform` | cinatra/include/cinatra/sha1.hpp:81-175 | for every digest and block the eighty unrolled rounds compute the loop of section 6.1 of RFC 3174 |
| `Sha1Stream.WordBytesRoundTrip` | cinatra/include/cinatra/sha1.hpp:72-79 | bytes laid out most significant first and put together again are the word |
| `Sha1Stream.MakeBlock` | cinatra/include/cinatra/sha1.hpp:72-79 | sixty-four bytes become sixteen words, most significant byte first |
| `Sha1Stream.Context.Update` | cinatra/include/cinatra/sha1.hpp:201-220 | whatever the cut, the context holds the fold over the whole blocks and the rest in its buffer |
| `Sha1Stream.Context.Finish` | cinatra/include/cinatra/sha1.hpp:222-254 | the digest of the message padded as in section 4 of RFC 3174 |
| `Sha1Stream.OneBlock` | cinatra/include/cinatra/sha1.hpp:230-245 | with fewer than 56 bytes left the padding and the length fit into the buffer |
| `Sha1Stream.TwoBlocks` | cinatra/include/cinatra/sha1.hpp:236-245 | otherwise the buffer is closed and the length goes into a block of zeros |
| `Sha1Stream.LengthWords` | cinatra/include/cinatra/sha1.hpp:242-244 | the two words stored at the end are the length bytes of the padded message |
| `Sha1Stream.Hash` | cinatra/include/cinatra/sha1.hpp:201-254 | for every way of cutting a message into calls the digest is that of the padded message |
| `Sha1Vector.AbcDigest` | cinatra/include/cinatra/sha1.hpp:86-200 | the specification gives the digest of `abc` of section 7.3 of RFC 3174, round by round |
| `Sha1Vector.HashAbc` | cinatra/include/cinatra/sha1.hpp:201-254 | so does the code, however the three bytes are cut into calls |
| `ThreadPool.Safety` | fixed_thread_pool/FixedThreadPool.hpp:80-163 | over every interleaving: each accepted task is taken once and in order, no wake-up is lost, and with at least one worker the destructor returns only after every accepted task has run |
| `ThreadPool.RunKeeps` | fixed_thread_pool/FixedThreadPool.hpp:80-163 | every run from a state of the invariant ends in one |
| `ThreadPool.StepConserves` | fixed_thread_pool/FixedThreadPool.hpp:80-163 | every step conserves the tasks: accepted is taken then queued, taken is finished and in execution |
| `ThreadPool.StepLosesNone` | fixed_thread_pool/FixedThreadPool.hpp:94-102 | while a worker waits, the queued tasks are at most the pending notifications and awake workers, and a stopped pool has still to notify all |
| `ThreadPool.StepOrdered` | fixed_thread_pool/FixedThreadPool.hpp:118-132 | a worker returns only from a stopped and drained pool, and only returned workers are joined |
| `ThreadPool.NoWorkersNoRun` | fixed_thread_pool/FixedThreadPool.hpp:118-132 | with no worker the destructor returns and an accepted task never runs |
| `ThreadPool.NeverStuck` | fixed_thread_pool/FixedThreadPool.hpp:89-105 | while a task is queued or the destructor is under way some step of the pool is enabled |
| `ThreadPool.LessToDo` | fixed_thread_pool/FixedThreadPool.hpp:118-132 | once stopped, every step leaves less to do |
| `ThreadPool.DestructorReturns` | fixed_thread_pool/FixedThreadPool.hpp:118-132 | from every reachable stopped state the destructor returns within that many steps |
| `Sender.NothingLost` | cinatra/include/cinatra/connection.hpp:1283-1325 | over every interleaving the messages written, in flight and queued are those sent, in lock order, and nothing waits while the socket is idle |
| `Sender.TwoCompletions` | cinatra/include/cinatra/connection.hpp:1298-1323 | a message has been written after two completions at most |
| `Sender.Connection.SendMsg` | cinatra/include/cinatra/connection.hpp:1283-1288 | the message is queued, or a write of it begins if none is under way; a write under way and what it refers to are untouched |
| `Sender.Connection.SendHeaderAndData` | cinatra/include/cinatra/connection.hpp:1290-1296 | the header goes right before its data |
| `Sender.Connection.DoWriteMsg` | cinatra/include/cinatra/connection.hpp:1298-1304 | the buffers change places and one write of all that waited begins |
| `Sender.Connection.Complete` | cinatra/include/cinatra/connection.hpp:1304-1314 | the bytes written are those that were in the buffer when the write began; what waits goes next |
| `Logger.GlobalLogger.RotatingLoggerInit` | logger/Logger.hpp:255-291 | every file exists afterwards with the contents it had, or empty; bad arguments and a second call change nothing |
| `Logger.GlobalLogger.RotatingFile` | logger/Logger.hpp:558-596 | the oldest file goes and every other moves one down; it throws exactly if a file is missing |
| `Logger.GlobalLogger.BeginFile` | logger/Logger.hpp:558-596 | from a public state all files exist, so no error branch is taken |
| `Logger.GlobalLogger.Write` | logger/Logger.hpp:440-450 | a record goes whole to the end of the last file, or begins a new one, exactly if the size of the last and the number of its records reach the limit |
| `Logger.GlobalLogger.Trace` | logger/Logger.hpp:430-452 | a record is accepted exactly at trace level |
| `Logger.GlobalLogger.Debug` | logger/Logger.hpp:463-485 | a record is accepted exactly at trace or debug level |
| `Logger.GlobalLogger.Info` | logger/Logger.hpp:496-518 | a record is accepted at every level |
| `Logger.GlobalLogger.Error` | logger/Logger.hpp:529-548 | a record is accepted whatever the level |
| `Logger.GlobalLogger.OnlyOldestFilesGo` | logger/Logger.hpp:558-596 | the files read oldest first are the end of the initial contents and all records, with only whole oldest files gone |
| `Logger.GlobalLogger.FilesAreBounded` | logger/Logger.hpp:430-548 | a file begun since the start has at most the limit less one and the longest record |
| `Logger.SlotsDiffer` | logger/Logger.hpp:558-596 | the names of the files are all different |
| `Logger.NextShifted` | logger/Logger.hpp:573-583 | one rename of the loop moves the free place up by one |
| `Logger.AllShifted` | logger/Logger.hpp:585-596 | after all renames and the new file the contents have moved one down, and other files are untouched |
| `Logger.RecordSize` | logger/Logger.hpp:448-449 | the size counter adds one byte more than the record has, so it never under-counts |
| `Logger.FileNames` | logger/Logger.hpp:440-450 | the names of three files, the oldest first |
| `Logger.RecordText` | logger/Logger.hpp:440-450 | a record written out, and how much of a long text it keeps |
| `Config.TrimIsTheCore` | parse_config/ProcessString.hpp:264-322 | white space around a text goes and nothing else |
| `Config.RmSpaceInBegAndEnd` | parse_config/ProcessString.hpp:264-322 | counting blanks at both ends and erasing them is that trimming |
| `Config.ParsedIsGood` | parse_config/ParseConfig.hpp:91-148 | parsing, even when it ends in an error, only ever produces maps whose lines can be printed and read |
| `ConfigFile.SectionShape` | parse_config/ParseConfig.hpp:395-416 | a section passes exactly if it is a name without brackets between two brackets |
| `ConfigFile.ItemShape` | parse_config/ParseConfig.hpp:426-452 | an item passes exactly if it is a name and a value, neither empty, without blanks beside the first equals sign |
| `ConfigFile.CheckSectionNameFormat` | parse_config/ParseConfig.hpp:395-416 | the check and its message, with counts of 32 bits |
| `ConfigFile.CheckConfItemFormat` | parse_config/ParseConfig.hpp:426-452 | the check and its message, with a length of 32 bits |
| `ConfigFile.ParseConfig.ParseConfFileIntoMap` | parse_config/ParseConfig.hpp:91-148 | the line loop gives the specified map, or the error of the first bad line with what came before it |
| `ConfigFile.ParseConfig.PrintConfInMap` | parse_config/ParseConfig.hpp:157-171 | the sections and items in the order of the map |
| `ConfigRoundTrip.ParseUndoesPrint` | parse_config/ParseConfig.hpp:91-171 | for every file that parses, printing the map and parsing that gives the same map |
| `ConfigRoundTrip.LessIsLexicographic` | parse_config/ParseConfig.hpp:141-171 | the order of the maps: the first difference decides |
| `ConfigLines.FileIsRead` | parse_config/ParseConfig.hpp:91-139 | a file of comments, empty lines, headings and settings, with white space around each, gives every name under every heading its last value, and nothing else |
| `ConfigLines.LineIsRead` | parse_config/ParseConfig.hpp:111-139 | each kind of line does what it says; a comment is skipped whatever it says |
| `ConfigLines.LastLineIsRead` | parse_config/ParseConfig.hpp:111-139 | the last line needs no line end |
| `ConfigLines.DefectIsReported` | parse_config/ParseConfig.hpp:395-452 | the first line that is none of these is reported with its number and text, and the settings above it stay |
| `ConfigLines.SpaceTable` | parse_config/ProcessString.hpp:264-322 | white space, by number |
| `ConfigRoundTrip.SectionsRead` | parse_config/ParseConfig.hpp:91-171 | printed sections are read back whatever was read before them |
| `ConfigRoundTrip.ItemsRead` | parse_config/ParseConfig.hpp:91-171 | printed items are read back into their section |

## Left out

- XmlRoundTrip.ParsePrinted: entities on, and the initial indentation is not negative.
- XmlParsed.RoundTripsExactly: no text outside the elements, which the parser takes but which is not a document in the sense of section 2.1 of XML 1.0.
- XmlParsed.PrintAfterParse: the same.
- XmlDocument.XMLDocument.ReadDocument: builds its tree of pieces as a value (the pointers are `XmlDom`); line numbers and the messages of errors are not modelled.
- XmlStrPair.StrPair.GetStr: strings set by `SetStr` and owned by the piece, and `TransferTo`, are not modelled.
- XmlPrinter.XMLPrinter.PrintDocument: with entity processing on; without it texts are written as they are.
- XmlDom.XMLNode.DeleteNode: a null argument is excluded by the type; the pools of the node kinds are one counter of untracked nodes, and freeing is leaving the forest.
- XmlDom.XMLNode.InsertEndChild: never a node under itself, under a descendant, or the document itself, which the code does not check either.
- DynArray.Vector.PushArr: the total must not be zero, as the assertion in `EnsureCapacity` asks; the inline array for small sizes is an ordinary one.
- Pool.MemPool.Free: the item is one of this pool in use, or null, which the code does not check; several pools and item sizes are one pool with a number of items per block.
- Multipart.MultipartParser.Feed: behind a carriage return inside a nonempty header name (a wild machine) it is stated where the parser goes, when it throws and that what was told stays told, but not what more is delivered, because that depends on the chunking.
- HttpPipelining.ParseRequestAt: `last_len` lies inside the buffer, which the code does not check.
- HttpParser.GetTokenToEol: the SSE4.2 branches are left out, the loop over eight characters is in.
- ChunkedRoundTrip.Response.ToChunkedBuffers: the hexadecimal form of the length is a parameter, any one to sixteen digits that denote it; that the stream of the standard library gives the digits of `ChunkedRoundTrip.HexIsRight` is not modelled.
- Itoa.Xtoa: the most negative value in signed decimal is excluded, since its negation is undefined in the source.
- Itoa.ItoaUnsigned: 64-bit values are left out, as the table of multiplicative inverses has no entry that wide.
- Sha1Stream.Context.Finish: from 2^61 bytes on the length is taken modulo 2^64 bits, as the code does; RFC 3174 defines none there.
- ThreadPool.Safety: tasks are opaque and end; the futures that `enqueue` returns are not modelled.
- Sender.Connection.Complete: successful completions only; an error closes the connection, and callbacks do not send under the lock.
- Logger.GlobalLogger.Write: the C style of the global logger; the module logger repeats it on its own fields. The formatted text is a parameter and the stream never fails.
- ConfigFile.ParseConfig.ParseConfFileIntoMap: looking items up, in the map or in the file, is left out.
- Characters are Dafny characters, and those above 255 behave as bytes above 127 do; NUL ends a C string.
- Sockets, timers, TLS, compression, databases, directories and clocks are input and output.
- Queueing of pipelined requests, body accounting in the connection and the client's chunk reader: their state is spread over the callbacks of a networking library whose scheduling is not part of this model.
- Routers, sessions, cookies and the cache: look-ups in the maps of the standard library, some of them by the clock.
- The string helper, number base, network buffer, time, markdown and rename tools: single passes that keep nothing between calls; the copy of the configuration parser in the markdown tool is the same code.
