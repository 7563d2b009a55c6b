# Verified model of the ISEA framework's XML engine and of five smaller cores

The project models the XML engine that reads and writes the configurations of the ISEA framework
(`libraries/tinyxml2`), and five places of the framework where arithmetic or bookkeeping is subtle: the section
stream of the configuration reader, the capacity search of an aged cell, the heat conduction operator of a
cylindric block, the sample buffers of the aging effects, and the order of the output vectors.

`dafny verify dfyconfig.toml` checks everything.

## What is proved

**The parser and its language.** `XmlParsing` is the parser as a function of the text; `XmlParsers.XmlParser` is
the recursive-descent parser with its cursor over the one shared, NUL-terminated buffer, in which it flushes names
while it reads on. The object computes the function for every input (`XmlParsers.XmlParser.Parse`). The function
accepts exactly the texts of a grammar in which every element that is not sealed ends in an end tag of its own name,
and reads the one list of nodes the grammar gives (`TagNesting.ReadsExactly`).

**What an author writes.** `WrittenDocuments` is the concrete syntax, byte by byte and without any function of the
parser: tags, attributes in either quotes, comments, sections, declarations, unknowns and texts, with blanks of six
literal bytes (`BlankBytes`) wherever they may be, and values (`WrittenValues`) of plain bytes, line ends, the five
entities by name, and character references by their digits. Every properly written document is read as its tree
(`WrittenDocuments.WrittenIsRead`), the same as without its blanks (`WrittenDocuments.BlanksAreFree`), and one with 99
open elements is refused (`WrittenDocuments.DocumentTooDeep`). `XmlBytes` says the same of blanks in front of any text
at all, what starts a text or a name, and which error an unterminated node gives. `ConfigLines` and `ConfigFiles` do
it for the lines of a configuration file.

**Round trips.** For every document whatsoever, every setting of the printer and both readers, printing and parsing
gives the document back if and only if it is one of those that come back (`RoundTrips.RoundTripExactly`). These are
the printable documents (`Layout.Printable`: legal and in each element unique attribute names, no CR or NUL, no text
that is white space only, no two texts in a row, no terminator inside a node, no unknown that starts like a comment or
CDATA, without entities no `<` in a text and no double quote in an attribute, declarations first, at most 98 nested
elements with children) that do not end in a text at top level, do not start, without a byte order mark, in a text
that begins with white space or looks like a mark, and whose texts the two modes leave alone: a reader that collapses
white space, when every text is collapsed; one that keeps it, when the output is compact or its indentation touches no
text. Indentation touches a text that an element follows, and at top level one behind an element, or behind some
markup and in front of other (`SentDocuments.Undisturbed`).

In the other direction, what was parsed, from any text, prints to a text that parses to the same again if and only if it
has a node, holds no CR and no white-only text (character references can give both), without entities no double quote in
an attribute, neither ends nor starts in a text as above, and indentation touches no text unless the output is compact
or white space is collapsed (`RoundTrips.ReparseStable`). Collapsing while reading is collapsing what was read
(`WhitespaceModes.DocumentCollapses`).

**Lazy strings.** After a parse the closed ranges of all strings are in order and disjoint, so reading them in any
order and as often as one likes gives what decoding the original text at once would have given
(`LazyStrings.SharedStrings.ReadAll`, `LazyStrings.ParseAndRead`). The in-place decoder equals the documented one
exactly on the texts without a stale byte (`StringDecoding.DecodeFromIsDecode`). The documented decoder keeps an
ampersand that starts nothing known; only a reference cut off right after `&#` loses its ampersand, as in the code.

**The document object model.** `NodeLinks` and `Forests` say what links, `_unlinked` and pool counters stand for;
`XmlNodes` are the linked objects with the real fields, each of whose operations is proved to do to the links what
the list operation of the same name does. The invariant `XmlNodes.XmlDocument.Valid` (links consistent and acyclic,
every live parentless node in `_unlinked` exactly once and no other node there, every counter equal to the number
of objects it counts, attribute names unique in every node) is kept by every operation of `XmlNodes`, and by parsing a
text without errors: `XmlReading` replays how the parser creates a node when it recognizes it, inserts it when it is
complete, and creates and deletes one for an end tag. So the invariant holds over every sequence of these; `Clear`
ends with every counter at zero, and deep copies are equal to their source. `MemPools` is the free list below.

**The smaller cores.** `ConfigSections` with `ConfigLines`, `ConfigFiles` and `ConfigEndings`, `CellCapacity`,
`ThermalOperator` with `ThermalConsistency`, `SampleLogs` with `AgingSamples`, and `OutputReorder`. The conduction
matrix is symmetric, conserves heat and dissipates, and it is exact on squared radii and squared angles, the field of
heat conduction in cylinder coordinates (`ThermalConsistency.RadiusSquared`, `ThermalConsistency.AngleSquared`).

Some properties that one would expect are false of the code. For each the exact condition is proved, and a case in
which it fails:

- The in-place decoder keeps an unknown `&name` only if the byte under the write pointer is an ampersand
  (`StringDecoding.DecodeFromIsDecode`; `StringDecoding.StaleByte`).
- Indented output does not read back when it touches a text (`RoundTrips.RoundTripExactly`;
  `PrintParse.IndentedTextGrows`), and a CR that a character reference gave is not printed as a reference again
  (`RoundTrips.ReparseStable`; `RoundTrips.ReturnIsLost`).
- Sections stay balanced unless a `[default]` header follows a section of two or more parts or an option is named
  like an opening or closing (`ConfigSections.GoodExactly`; `ConfigSections.DefaultLeavesOpen` is the failing family,
  to which `ConfigSections.TwoParts` gives a section, and `ConfigSections.OptionLooksLikeOpening` is the other kind).
- Without such options a file ends with every section closed if and only if behind every default header that follows a
  section of two or more parts the next line that is neither blank nor a default header begins a section
  (`ConfigEndings.ClosedExactly`).
- `InsertAfterChild` dereferences null exactly when the node to move is the last child and follows `afterThis`
  (`Forests.SuccessorLost`; `Forests.LastChildBehind`).
- The output loop stays inside its vector if and only if at most one place of the matrix is missing or the matrix
  has two columns (`OutputReorder.InRangeExactly`; `OutputReorder.SevenTwoports`).
- Going back to a point in time restores what was held then if and only if nothing else was sampled at that very time,
  which a step of length zero does (`SampleLogs.RollbackExactly`; `SampleLogs.RollbackFails`).

## Conventions

- A byte is a `char`. The byte strings are the strings of characters up to 255, so what holds of all strings holds
  of all byte strings.
- `unsigned` has 32 bits and `unsigned long` 64 (LP64); both wrap (`CharacterReferences.Accumulate`).
- Ghost names (`Id`) and ghost ancestor lists say which node is meant and what is above it; the program has neither.
- Voltages, charges, temperatures and times are exact reals.
- Where the code is laxer than XML 1.0 the model follows the code: names may hold any byte above 127, an end tag may
  carry attributes, `</a/>` is an empty element, and an unmatched end tag at top level ends the document without error.

## Model

| member | source | states |
|---|---|---|
| CharacterReferences.Utf8RoundTrip | libraries/tinyxml2/tinyxml2.cpp:403-453 | the bytes of a value below 0x200000 are the one shortest-form sequence that an independent decoder of the layouts of RFC 3629 section 3 reads back as that value; above that nothing is written |
| CharacterReferences.ConvertUTF32ToUTF8 | libraries/tinyxml2/tinyxml2.cpp:403-453 | the fall-through switch fills the buffer from the back with exactly the encoding and touches nothing behind it |
| CharacterReferences.ContinuationBits | libraries/tinyxml2/tinyxml2.cpp:436-444 | `(x or 0x80) & 0xBF`, bit by bit, is the low six bits under the mark, for words of any width |
| CharacterReferences.LeadBits | libraries/tinyxml2/tinyxml2.cpp:446-449 | what is left of the value never overlaps the mark of the lead byte, so the `or` adds it |
| CharacterReferences.PutContinuation | libraries/tinyxml2/tinyxml2.cpp:436-444 | one case of the switch writes the next six bits and leaves the rest |
| CharacterReferences.AccumulateIsPositional | libraries/tinyxml2/tinyxml2.cpp:484-546 | the wrapping right-to-left loop on a run of digits yields the number they denote: congruent modulo 2^32 always, equal when it fits 32 bits, and for hexadecimal always the low 32 bits |
| CharacterReferences.WellFormedReference | libraries/tinyxml2/tinyxml2.cpp:456-549 | a reference with up to 8 hexadecimal or 9 decimal digits is consumed whole and gives the number written |
| CharacterReferences.EncodedFits | libraries/tinyxml2/tinyxml2.cpp:456-549 | whatever is decoded takes no more bytes than the reference consumed, so in-place writing never overtakes reading |
| CharacterReferences.GetCharacterRef | libraries/tinyxml2/tinyxml2.cpp:456-549 | on the buffer: null for a malformed reference, `p + 1` and nothing written for a reference cut off after `&#`, otherwise the encoded bytes and the cursor behind the semicolon |
| StringDecoding.DecodeFromIsDecode | libraries/tinyxml2/tinyxml2.cpp:267-365 | the loop computes the documented decoding if and only if no unknown `&` is met over a byte other than `&` |
| StringDecoding.ResolvableDecodes | libraries/tinyxml2/tinyxml2.cpp:267-365 | in particular when every ampersand starts an entity or a terminated reference |
| StringDecoding.StaleByte | libraries/tinyxml2/tinyxml2.cpp:341-345 | an input on which an unknown entity turns into a byte of the old text |
| StringDecoding.DecodeInPlace | libraries/tinyxml2/tinyxml2.cpp:285-356 | the write pointer never passes the read pointer nor the end, only bytes below it change, and they are the decoding of the original range |
| StringDecoding.GetStr | libraries/tinyxml2/tinyxml2.cpp:267-365 | nothing outside the closed range changes, and the C string returned is the decoding of the original bytes, collapsed if asked for; for a properly written value it is what its plain bytes, line ends, named entities and references stand for |
| StringDecoding.FiveNames | libraries/tinyxml2/tinyxml2.cpp:129-135 | whatever follows, `&amp;`, `&lt;`, `&gt;`, `&quot;` and `&apos;` decode to the bytes section 4.6 of XML 1.0 gives them |
| StringDecoding.WrittenIsMeant | libraries/tinyxml2/tinyxml2.cpp:267-365 | every value written from plain bytes, the four line ends, the five names and references of up to 8 hexadecimal or 9 decimal literal digits is read as what its pieces stand for |
| StringDecoding.CollapseSpec | libraries/tinyxml2/tinyxml2.cpp:238-264 | collapsing leaves single spaces between other bytes only, loses no other byte, and its fixed points are exactly the collapsed strings |
| StringDecoding.CollapseWhitespace | libraries/tinyxml2/tinyxml2.cpp:238-264 | the in-place loop leaves the collapsed C string inside its old range |
| StringEscaping.DecodeEscape | libraries/tinyxml2/tinyxml2.cpp:2564-2616 | decoding what PrintString writes, restricted or not, gives the string with its line ends normalized |
| StringEscaping.ReadBack | libraries/tinyxml2/tinyxml2.cpp:2564-2616 | reading back gives the string itself if and only if it has no CR and no NUL |
| StringEscaping.NormalizeFixed | libraries/tinyxml2/tinyxml2.cpp:292-313 | line-end normalization (section 2.11 of XML 1.0) keeps exactly the strings without CR |
| StringEscaping.AllEscapedByName | libraries/tinyxml2/tinyxml2.cpp:2585-2600 | escaping writes the five bytes as their names, quotes only outside restricted text, and every other byte as itself |
| TagNesting.ReadsExactly | libraries/tinyxml2/tinyxml2.cpp:1010-1122 | a text is read as these nodes if and only if it is a run of them in which each unsealed element ends in an end tag of its own name, declarations are in place and nesting is below the limit |
| TagNesting.LoopIsNested | libraries/tinyxml2/tinyxml2.cpp:1010-1122 | whatever the child loop returns tiles the text it consumed, up to an end tag or the end of the input |
| TagNesting.NodeIsTaken | libraries/tinyxml2/tinyxml2.cpp:1968-1993 | a well-nested node is never refused: the loop appends it and goes on right behind it |
| XmlParsing.FoundTag | libraries/tinyxml2/tinyxml2.cpp:193-215 | where the search for an end tag stops, the tag is there |
| XmlBytes.InFrontOfMarkup | libraries/tinyxml2/tinyxml2.cpp:678-745 | spaces, tabs, line feeds, vertical tabs, form feeds and carriage returns in front of markup or the end change nothing for the child loop, errors included, whatever follows |
| XmlBytes.InFrontOfDocument | libraries/tinyxml2/tinyxml2.cpp:2450-2464 | nor do they in front of a whole text |
| XmlBytes.InFrontOfAttribute | libraries/tinyxml2/tinyxml2.cpp:1885-1942 | nor in a tag, in front of an attribute or of its end |
| XmlBytes.InFrontOfName | libraries/tinyxml2/tinyxml2.cpp:1968-1993 | nor between the `<` of a tag and its name |
| XmlBytes.AroundEquals | libraries/tinyxml2/tinyxml2.cpp:1378-1403 | nor on either side of the equals sign |
| XmlBytes.TextStarts | libraries/tinyxml2/tinyxml2.cpp:678-745 | any other byte but `<` and NUL starts a text, which keeps the blanks in front of it |
| XmlBytes.NothingElseInTag | libraries/tinyxml2/tinyxml2.cpp:1885-1942 | a byte in a tag that is no blank, no letter, none of `_` and `:`, not above 127 and no end of the tag is an error |
| XmlBytes.NameBytes | libraries/tinyxml2/tinyxml2.h:575-591 | the bytes that start and continue a name, one by one |
| XmlBytes.Unterminated | libraries/tinyxml2/tinyxml2.cpp:1169-1339 | a comment, section, declaration, unknown or text whose literal terminator does not occur in the rest is an error of its own kind |
| WrittenDocuments.WrittenIsRead | libraries/tinyxml2/tinyxml2.cpp:2450-2464 | every document of the concrete syntax, with blanks wherever they may be, is read without error as the tree it stands for, with its byte order mark, for every setting of the reader |
| WrittenDocuments.BlanksAreFree | libraries/tinyxml2/tinyxml2.cpp:678-745 | it is read the same as the document without its blanks |
| WrittenDocuments.DocumentTooDeep | libraries/tinyxml2/tinyxml2.cpp:2466-2473 | 99 start tags in a row are refused whatever follows |
| XmlParsers.XmlParser.Parse | libraries/tinyxml2/tinyxml2.cpp:2450-2464 | the object gives the same error or the same nodes as the function on the original text, leaves the depth at 0, all string ranges disjoint and intact, and the line number of every node and attribute right; for every properly written document these nodes are its tree and there is no error |
| XmlParsers.XmlParser.ParseChildren | libraries/tinyxml2/tinyxml2.cpp:1010-1122 | the child loop with its cursor: what it reads, where it stops, the pending end tag, no byte in front of it changed, depth restored, each round consuming input |
| XmlParsers.XmlParser.ParseElement | libraries/tinyxml2/tinyxml2.cpp:1968-1993 | an element and the end tag its children came upon, without touching a byte in front of it |
| XmlParsers.XmlParser.ParseAttributes | libraries/tinyxml2/tinyxml2.cpp:1885-1942 | the attribute loop; every name is flushed in place, and no flush disturbs a range read before or the text still to be read |
| XmlParsers.XmlParser.ParseAttribute | libraries/tinyxml2/tinyxml2.cpp:1378-1403 | one attribute, its two ranges and the line count behind it |
| XmlParsers.XmlParser.CheckEndTag | libraries/tinyxml2/tinyxml2.cpp:1097-1117 | the comparison flushes both names, decides as comparing the original texts would, and disturbs nothing else |
| XmlParsers.XmlParser.FindAttribute | libraries/tinyxml2/tinyxml2.cpp:1552-1560 | finds a name among the flushed ones exactly when the original texts hold it |
| XmlParsers.XmlParser.Identify | libraries/tinyxml2/tinyxml2.cpp:678-745 | the next node kind, with the line of its first byte that is not white space even when the cursor backs up |
| XmlParsers.XmlParser.ParseText | libraries/tinyxml2/tinyxml2.cpp:193-215 | the range up to the first end tag, and the line count behind it |
| XmlParsers.XmlParser.ParseName | libraries/tinyxml2/tinyxml2.cpp:218-235 | the longest name, or null when none starts |
| XmlParsers.XmlParser.SkipWhiteSpace | libraries/tinyxml2/tinyxml2.h:553-564 | the cursor stops at the first other byte and the line count stays 1 plus the line feeds of the original text in front of it |
| XmlParsers.XmlParser.ParseLeaf | libraries/tinyxml2/tinyxml2.cpp:1169-1193 | text, comments, declarations and unknowns up to their end tag; plain text gives the `<` back |
| LazyStrings.SharedStrings.Read | libraries/tinyxml2/tinyxml2.cpp:267-365 | one read gives the eager value and leaves every other string readable |
| LazyStrings.SharedStrings.ReadAll | libraries/tinyxml2/tinyxml2.cpp:267-365 | any order and repetition of reads gives the eager values |
| LazyStrings.ParseAndRead | libraries/tinyxml2/tinyxml2.cpp:2355-2383 | from a text to string values: parse, then read any strings in any order |
| ParsedTrees.ParsedDocument | libraries/tinyxml2/tinyxml2.cpp:1885-1942 | every parsed tree, however it was read, has legal and unique attribute names, no NUL, no terminator inside a node, declarations first, no two texts in a row, and bounded nesting |
| RoundTrips.ReparseStable | libraries/tinyxml2/tinyxml2.cpp:2386-2395 | for every text that is parsed, every setting of the reader and both modes: printing what was parsed parses back to the same document if and only if it has a node, holds no CR, no white-only text and without entities no double quote in an attribute, its last node is no text, without a mark its first text neither begins with white space nor looks like a mark, and the output is compact, or white space is collapsed, or indentation touches no text |
| RoundTrips.ReturnIsLost | libraries/tinyxml2/tinyxml2.cpp:2564-2616 | `<a>&#13;x</a>` is parsed, and in neither mode does its print parse to the same |
| RoundTrips.RoundTripExactly | libraries/tinyxml2/tinyxml2.cpp:2866-2922 | for every document, printable or not, both modes of the printer, both of the reader, with and without entities and mark: what was printed parses back to it if and only if the document is one of those that come back |
| RoundTrips.SentComesBack | libraries/tinyxml2/tinyxml2.cpp:2355-2383 | the same for the documents whose names, quotes and terminators read back: of these exactly the ones without CR and white-only texts, and with their texts left alone, come back |
| RoundTrips.BackIsSendable | libraries/tinyxml2/tinyxml2.cpp:2355-2383 | conversely, what comes back has legal and unique attribute names, no NUL, no terminator inside a node, no misplaced quote, declarations first, no two texts in a row and bounded nesting |
| Rereading.ListBack | libraries/tinyxml2/tinyxml2.cpp:2564-2616 | of nodes that took up white space in the output, line ends normalized and white-only texts dropped, a list is what was printed exactly when it holds no CR and no white-only text and no text took up anything, or was collapsed again |
| SentDocuments.TopFixed | libraries/tinyxml2/tinyxml2.cpp:2631-2649 | the output stands for exactly the nodes printed if and only if it is compact or its line breaks and indentation touch no text, at top level as well |
| SentDocuments.TextFirstIsRead | libraries/tinyxml2/tinyxml2.cpp:2355-2383 | a document that starts in a text without a mark loses the white space in front, and comes back as something else when the rest looks like a mark |
| QuotedValues.NodesAgree | libraries/tinyxml2/tinyxml2.cpp:1378-1403 | output without entities that reads as nodes of the same names and attributes has no double quote in an attribute |
| PrintParse.IndentedTextGrows | libraries/tinyxml2/tinyxml2.cpp:2639-2641 | a document whose text comes back four spaces longer |
| WhitespaceModes.DocumentCollapses | libraries/tinyxml2/tinyxml2.cpp:1169-1193 | reading with white space collapsed gives the tree read without, its plain texts collapsed, and the same errors |
| PrintParse.PrintThenParse | libraries/tinyxml2/tinyxml2.cpp:2631-2649 | for every printable document without text at top level, in both modes: the indentation in front of elements is added to the texts they follow, and nothing else changes |
| PrintParse.LaidDocumentIsRead | libraries/tinyxml2/tinyxml2.cpp:678-745 | white space between nodes, other than next to a text, is dropped by the parser, as are texts of white space only; a text at the end that nothing closes is an error |
| RoundTrip.ListIsRead | libraries/tinyxml2/tinyxml2.cpp:1010-1122 | the loop takes a printed list node by node, with line ends normalized and white-only texts passed over, and goes on with what follows it |
| RoundTrip.AttributeIsRead | libraries/tinyxml2/tinyxml2.cpp:1378-1403 | a printed attribute is read back with its name, and its value with line ends normalized |
| RoundTrip.TagIsFound | libraries/tinyxml2/tinyxml2.cpp:193-215 | an end tag whose last byte occurs in it once is found right behind a text that does not hold it |
| PrintedLayout.NodesPrint | libraries/tinyxml2/tinyxml2.cpp:2480-2922 | the printer's output is the laid-out text of the tree, for every state it may be in |
| XmlPrinting.PadChangesOnly | libraries/tinyxml2/tinyxml2.cpp:2639-2641 | the indentation written after a text changes the tree exactly when some text is directly followed by an element |
| XmlPrinters.Append | libraries/tinyxml2/tinyxml2.cpp:2530-2540 | writing keeps the buffer one NUL-terminated string, with the new bytes at its end |
| XmlPrinters.XmlPrinter.PrintString | libraries/tinyxml2/tinyxml2.cpp:2564-2616 | the run-wise loop writes the string with exactly the flagged bytes escaped, as the entity names written out in WrittenValues |
| XmlPrinters.XmlPrinter.OpenElement | libraries/tinyxml2/tinyxml2.cpp:2631-2649 | output, name stack, depth and flags after a start tag |
| XmlPrinters.XmlPrinter.CloseElement | libraries/tinyxml2/tinyxml2.cpp:2711-2736 | output, name stack, depth and text depth after an end tag |
| XmlPrinters.XmlPrinter.PushText | libraries/tinyxml2/tinyxml2.cpp:2749-2762 | text and CDATA, and the depth at which indentation stops |
| XmlPrinters.XmlPrinter.PushMarkup | libraries/tinyxml2/tinyxml2.cpp:2821-2863 | comments, declarations and unknowns with their line break |
| XmlPrinters.XmlPrinter.VisitNode | libraries/tinyxml2/tinyxml2.cpp:2876-2922 | the visitor takes the printer through the states the printing function describes |
| XmlPrinters.XmlPrinter.PrintDocument | libraries/tinyxml2/tinyxml2.cpp:2386-2395 | the memory buffer of a fresh printer ends as the printed document |
| DynArrays.DynArray.EnsureCapacity | libraries/tinyxml2/tinyxml2.h:302-316 | growing keeps the elements |
| DynArrays.DynArray.SwapRemove | libraries/tinyxml2/tinyxml2.h:281-286 | the last element takes the place of the removed one |
| DynArrays.SwapRemovedIsRemoval | libraries/tinyxml2/tinyxml2.h:281-286 | exactly one occurrence leaves |
| MemPools.MemPool.Alloc | libraries/tinyxml2/tinyxml2.h:374-398 | hands out an item that is not live, from the free list or a new block; the free list stays acyclic and disjoint from the live items, and with them fills the blocks |
| MemPools.MemPool.Free | libraries/tinyxml2/tinyxml2.h:400-411 | the live item becomes the first free one; nothing else moves |
| MemPools.MemPool.Clear | libraries/tinyxml2/tinyxml2.h:354-365 | no block, no free and no live item is left |
| MemPools.MemPool.Thread | libraries/tinyxml2/tinyxml2.h:380-384 | the items of a new block form one chain |
| NodeLinks.UnlinkedConsistent | libraries/tinyxml2/tinyxml2.cpp:826-847 | taking a child off keeps all links consistent and acyclic and removes it from its parent's list only |
| NodeLinks.InsertedConsistent | libraries/tinyxml2/tinyxml2.cpp:863-957 | putting a parentless node at any place of a list keeps them so, given that it is neither the parent nor above it |
| NodeLinks.RemovedConsistent | libraries/tinyxml2/tinyxml2.cpp:1124-1137 | a node without parent and children can go |
| NodeLinks.UnlinkIsAllowed | libraries/tinyxml2/tinyxml2.cpp:826-847 | Unlink follows no null pointer, and no node is its own parent or sibling |
| ChildLists.LastAfterLeaving | libraries/tinyxml2/tinyxml2.cpp:938-956 | the node to insert behind becomes the last child exactly when the moved node was the last child right behind it |
| Forests.SuccessorLost | libraries/tinyxml2/tinyxml2.cpp:946-954 | taking the moved node off leaves the other without the successor read next exactly in that case |
| Forests.LastChildBehind | libraries/tinyxml2/tinyxml2.cpp:946-954 | a document of two children in which that happens |
| Forests.InsertionMoves | libraries/tinyxml2/tinyxml2.cpp:863-957 | an insertion keeps links, ownership and counters right, removes the node from the list it was in, puts it at its place, and changes no other list |
| Forests.CreatedSound | libraries/tinyxml2/tinyxml2.h:1960-1971 | so does a new unlinked node |
| Forests.FreedSound | libraries/tinyxml2/tinyxml2.cpp:1124-1137 | so does freeing a node that nothing refers to |
| Forests.WithAttributesSound | libraries/tinyxml2/tinyxml2.cpp:1838-1882 | so does any change of a node's attributes that keeps their names unique, with the attribute pool counted along |
| Forests.NewForestSound | libraries/tinyxml2/tinyxml2.cpp:2076-2096 | a new document satisfies the invariant |
| Forests.EmptiedAndFreed | libraries/tinyxml2/tinyxml2.cpp:777-783 | deleting the children and then the node itself deletes exactly its subtree |
| Forests.UnlinkedAndDeleted | libraries/tinyxml2/tinyxml2.cpp:850-860 | unlinking a child and deleting it deletes exactly its subtree from its parent's list |
| Forests.NothingLeft | libraries/tinyxml2/tinyxml2.cpp:2117-2148 | without children and unlinked nodes, the document is the only live node |
| Forests.NothingAllocated | libraries/tinyxml2/tinyxml2.cpp:2135-2147 | then every pool counts no object, tracked or not |
| XmlNodes.XmlNode.Unlink | libraries/tinyxml2/tinyxml2.cpp:826-847 | the pointer updates take the child out of the list and change nothing else |
| XmlNodes.XmlNode.InsertChildPreamble | libraries/tinyxml2/tinyxml2.cpp:1139-1151 | the node leaves its parent or the unlinked ones, and is tracked in the second case |
| XmlNodes.XmlNode.InsertEndChild | libraries/tinyxml2/tinyxml2.cpp:863-890 | the node becomes the last child; a node of another document is refused and nothing happens |
| XmlNodes.XmlNode.InsertFirstChild | libraries/tinyxml2/tinyxml2.cpp:893-921 | the node becomes the first child |
| XmlNodes.XmlNode.InsertAfterChild | libraries/tinyxml2/tinyxml2.cpp:924-957 | the node comes right behind another child; inserting a node behind itself, or behind another parent's child, changes nothing |
| XmlNodes.XmlNode.FindOrCreateAttribute | libraries/tinyxml2/tinyxml2.cpp:1838-1863 | the attribute of that name, new at the end when there was none, whose value can then be set |
| XmlNodes.XmlNode.SetAttribute | libraries/tinyxml2/tinyxml2.h:1455-1458 | the first attribute of the name gets the value, or a new one is appended; all else stays |
| XmlNodes.XmlNode.DeleteAttribute | libraries/tinyxml2/tinyxml2.cpp:1866-1882 | the first attribute of the name goes and the pool counts one less |
| XmlNodes.XmlNode.DeleteAttributes | libraries/tinyxml2/tinyxml2.cpp:1542-1549 | the destructor frees every attribute |
| XmlNodes.XmlNode.DeleteChildren | libraries/tinyxml2/tinyxml2.cpp:816-823 | terminates, and exactly what was below the node is gone |
| XmlNodes.XmlNode.DeleteChild | libraries/tinyxml2/tinyxml2.cpp:850-860 | exactly the child's subtree is gone |
| XmlNodes.XmlNode.DeleteNode | libraries/tinyxml2/tinyxml2.cpp:1124-1137 | exactly the subtree of a parentless node is gone, from `_unlinked` as well |
| XmlNodes.XmlNode.ShallowClone | libraries/tinyxml2/tinyxml2.cpp:1997-2007 | a new unlinked node of the target document with the same content, attributes set one by one |
| XmlNodes.XmlNode.DeepClone | libraries/tinyxml2/tinyxml2.cpp:803-814 | new nodes only, spelling out a tree equal to the source's, attribute order included; the source and the other nodes of the target are as before |
| XmlNodes.XmlDocument.constructor | libraries/tinyxml2/tinyxml2.cpp:2076-2096 | a valid document without nodes |
| XmlNodes.XmlDocument.CreateUnlinkedNode | libraries/tinyxml2/tinyxml2.h:1960-1971 | one new node, in `_unlinked`, counted in its pool as allocated and untracked |
| XmlNodes.XmlDocument.MarkInUse | libraries/tinyxml2/tinyxml2.cpp:2104-2115 | the node leaves `_unlinked` if it is there |
| XmlNodes.XmlDocument.DeleteNode | libraries/tinyxml2/tinyxml2.cpp:2219-2234 | the node and all below it are gone, whether it was in the tree or unlinked, and the document is valid again |
| XmlNodes.XmlDocument.Clear | libraries/tinyxml2/tinyxml2.cpp:2117-2148 | terminates with only the document alive, nothing unlinked, and every pool at zero allocated and untracked |
| XmlNodes.XmlDocument.DeepCopy | libraries/tinyxml2/tinyxml2.cpp:2151-2162 | the target holds the source's trees in order, made of new nodes only; the source is untouched; copying a document to itself does nothing |
| XmlReading.ParseDeep | libraries/tinyxml2/tinyxml2.cpp:1010-1122 | for every text the child loop reads without error: each node is created, completed and inserted, each end tag's node created and deleted; the parent gets exactly the nodes read, all new, behind its old ones, all else is as before, and the document is valid |
| XmlReading.ParseElement | libraries/tinyxml2/tinyxml2.cpp:1968-1993 | the element's new node spells out the element read, its attributes through their pool |
| XmlReading.ParseDocument | libraries/tinyxml2/tinyxml2.cpp:2355-2383 | after the old nodes have gone, the document's children spell out what the parser reads, and the document is valid |
| ParsedForests.OneAppended | libraries/tinyxml2/tinyxml2.cpp:1119 | inserting a new node behind the ones read before |
| ParsedForests.TagVanishes | libraries/tinyxml2/tinyxml2.cpp:1088-1095 | an end tag's node leaves no trace but its used name |
| ForestTrees.CopiedExactly | libraries/tinyxml2/tinyxml2.cpp:1997-2007 | setting attributes one by one reproduces the list if and only if names are unique |
| ForestTrees.CopyIsEqual | libraries/tinyxml2/tinyxml2.cpp:803-814 | a copy equals its tree if and only if attribute names are unique in every node |
| ForestTrees.CopyEquals | libraries/tinyxml2/tinyxml2.cpp:803-814 | which they are in every document, so it does |
| Dom.SetAttrUnique | libraries/tinyxml2/tinyxml2.cpp:1838-1863 | setting an attribute keeps names unique |
| Dom.UnsetAttrUnique | libraries/tinyxml2/tinyxml2.cpp:1866-1882 | deleting keeps names unique and leaves none of that name |
| ConfigSections.GenerateParents | libraries/cli11/CLI11.hpp:7733-7756 | the path of an option: the unquoted parts of its section, none for the default one, and of its dotted name |
| ConfigSections.CloseWhileAtLeast | libraries/cli11/CLI11.hpp:7763-7767 | the last closing is continued down to the given size, one part at a time |
| ConfigSections.CheckParentSegments | libraries/cli11/CLI11.hpp:7758-7804 | the items emitted go down to exactly the longest common part of old and new section and from there up to the new one |
| ConfigSections.SegmentsOpen | libraries/cli11/CLI11.hpp:7758-7804 | afterwards exactly the sections on the way to the new one are open |
| ConfigSections.AlwaysAChain | libraries/cli11/CLI11.hpp:7758-7804 | whatever balanced stream was emitted, the open sections are the prefixes of the innermost one |
| ConfigSections.FromConfig | libraries/cli11/CLI11.hpp:7807-7899 | the reader's loop emits the stream of its line-by-line transition function, and for every file whose lines are properly written that of what the lines stand for |
| ConfigLines.WrittenIsMeant | libraries/cli11/CLI11.hpp:7821-7874 | with blanks around the parts: `[s]` and `[[s]]` are the header of s, a name, the delimiter and a value are an entry of that name with the unquoted split of the value, a name alone has the item `true`, and a line behind `;`, `#` or the comment character is none |
| ConfigFiles.NothingIsEmitted | libraries/cli11/CLI11.hpp:7840-7848 | behind any lines, a blank or comment line emits nothing |
| ConfigFiles.OptionIsEmitted | libraries/cli11/CLI11.hpp:7850-7886 | behind any lines, an option is emitted under the path of its section and the front parts of its dotted name, or joins the last item when that has the same path and name |
| ConfigFiles.SectionBegins | libraries/cli11/CLI11.hpp:7823-7844 | behind any lines, a header sets the section, and the last item emitted is the `++` of its unquoted path |
| ConfigFiles.DefaultBegins | libraries/cli11/CLI11.hpp:7823-7844 | `default` in any mixture of cases emits the `--` of the section before it and nothing else |
| ConfigFiles.FileEnds | libraries/cli11/CLI11.hpp:7887-7898 | at the end one `--` is emitted for the section and for every section around it, inner ones first |
| ConfigSections.StepKeeps | libraries/cli11/CLI11.hpp:7807-7899 | a line keeps the open sections right if and only if it is not one of the two breaking kinds |
| ConfigSections.GoodExactly | libraries/cli11/CLI11.hpp:7807-7899 | over every file: after every line exactly the sections on the way to the current one are open, if and only if no line breaks them |
| ConfigSections.AllClosed | libraries/cli11/CLI11.hpp:7887-7898 | at the end of such a file every section is closed |
| ConfigSections.DefaultLeavesOpen | libraries/cli11/CLI11.hpp:7823-7841 | after a section of two or more parts a default header leaves the outer ones open for good |
| ConfigSections.OptionLooksLikeOpening | libraries/cli11/CLI11.hpp:7876-7885 | a file of one option named `++` leaves an unbalanced stream |
| ConfigEndings.ClosedExactly | libraries/cli11/CLI11.hpp:7807-7899 | over every file without options named `++` or `--`: every section is closed at the end if and only if every default header behind a section of two or more parts is followed, past blank lines and default headers, by a section header |
| CellCapacity.SearchFinds | src/aging/aging_twoport.h:244-257 | the decade search ends with a step in [1, 10) As from which the limit is reached, at a charge where it is not, or at its start |
| CellCapacity.TenFiner | src/aging/aging_twoport.h:248-257 | every decade after the first takes at most ten steps |
| CellCapacity.CrossingIsHit | src/aging/aging_twoport.h:248-254 | a crossing is reached by steps of any size: the loops end |
| CellCapacity.SearchNearCrossing | src/aging/aging_twoport.h:244-257 | a single crossing is reached, and missed by less than 10 As, from below |
| CellCapacity.RaiseToMinimum | src/aging/aging_twoport.h:244-257 | the loops terminate when the limit is reachable and leave both electrodes where the search ends |
| CellCapacity.LowerToMaximum | src/aging/aging_twoport.h:267-276 | likewise downwards to the maximum voltage |
| CellCapacity.StartsAtALimit | src/aging/aging_twoport.h:242-267 | the searches start at the one shift that leaves no electrode below its minimum, or above its maximum, and one of them exactly there |
| CellCapacity.CalculateCellCapacity | src/aging/aging_twoport.h:215-291 | nothing happens without half cells; otherwise both electrode charges are restored, and capacity factor and offset come from the two charges found |
| CellCapacity.CapacityIsClose | src/aging/aging_twoport.h:215-291 | for single crossings in range the searches end, and the capacity is at least the true one and less than 20 As above it |
| ThermalOperator.IndexIsUnique | benchmark/thermal_analytic_tests.cpp:129-132 | different elements have different indices, ordered as the elements were made: along a ray first |
| ThermalOperator.CylindricBlockBuilder.constructor | benchmark/thermal_analytic_tests.cpp:88-124 | after the double loop every row holds its neighbours' conductances and minus their sum |
| ThermalOperator.RowCouples | benchmark/thermal_analytic_tests.cpp:88-124 | the entry of an element for any other, found by its index alone, is the conductance between neighbours and 0 otherwise |
| ThermalOperator.Symmetric | benchmark/thermal_analytic_tests.cpp:88-124 | the matrix is symmetric for every size and positive geometry |
| ThermalOperator.RowsSumToZero | benchmark/thermal_analytic_tests.cpp:88-124 | every row sums to zero |
| ThermalOperator.Conserves | benchmark/thermal_analytic_tests.cpp:88-124 | for every temperature field the heat flows sum to zero |
| ThermalOperator.Dissipates | benchmark/thermal_analytic_tests.cpp:88-124 | for every temperature field T the product T times K T is never positive |
| ThermalConsistency.RadiusSquared | benchmark/thermal_analytic_tests.cpp:88-124 | on the field of squared radii the matrix gives 4 times the conductivity times the volume at every element with both radial neighbours, and at a boundary that without the exact flux through the missing face |
| ThermalConsistency.AngleSquared | benchmark/thermal_analytic_tests.cpp:88-124 | on the field of squared angles it gives 2 times the conductivity times the volume over the squared radius, likewise at the boundary |
| SampleLogs.RollbackExactly | src/aging/cyclical_aging.cpp:108-128 | over every run of samples and resets to no earlier time: going back to a point in time restores exactly the samples and clock held then, if and only if nothing else was sampled at that time |
| SampleLogs.RollbackIsExact | src/aging/cyclical_aging.cpp:108-128 | in particular when every timestep is positive |
| SampleLogs.RollbackFails | src/aging/cyclical_aging.cpp:108-128 | a run of three steps that leaves a sample too many |
| SampleLogs.StepOrdered | src/aging/cyclical_aging.cpp:108-128 | times stay sorted and bounded by the clock, and strictly increasing under positive steps |
| SampleLogs.WindowHolds | src/aging/cyclical_aging.cpp:130-139 | the averaging window holds exactly the values taken between the two times, both included |
| SampleLogs.AverageWithin | src/aging/cyclical_aging.cpp:130-139 | a mean lies between any bounds of its values |
| SampleLogs.WeightedWithin | src/aging/calendarian_aging.cpp:35-51 | so does the time-weighted sum, relative to the time covered |
| AgingSamples.CyclicalAging.CollectData | src/aging/cyclical_aging.cpp:108-116 | one sample more in every parallel array, at the advanced clock |
| AgingSamples.CyclicalAging.ResetToPointInTime | src/aging/cyclical_aging.cpp:118-128 | the arrays lose exactly what was taken later and stay parallel |
| AgingSamples.CyclicalAging.GetAverageValue | src/aging/cyclical_aging.cpp:130-139 | between two recorded times the window is not empty and the result is its mean, within all its bounds |
| AgingSamples.CalendarianAging.CollectData | src/aging/calendarian_aging.cpp:74-89 | likewise, only when enabled and the step is not zero |
| AgingSamples.CalendarianAging.ResetToPointInTime | src/aging/calendarian_aging.cpp:91-101 | the arrays lose exactly what was taken later |
| AgingSamples.CalendarianAging.WeightedStresses | src/aging/calendarian_aging.cpp:26-71 | the accumulation loop computes the two time-weighted sums of the clamped stress factors |
| AgingSamples.CalendarianAging.CalculateStress | src/aging/calendarian_aging.cpp:26-71 | both stress factors are the time-weighted means of the factors themselves while those keep the limits; for one factor over the whole step they are that factor or the limit it exceeds; when the step is the time covered they stay within the limits; the buffers are empty afterwards |
| AgingSamples.StressAverages | src/aging/empirical_aging.cpp:31-38 | the mean of the limited factors is the mean of the factors while all keep the limits, and for a constant factor that factor or the limit it exceeds |
| AgingSamples.TwoWeighted | src/aging/calendarian_aging.cpp:35-51 | the weighted sum of two samples, written out: each value counts from the sample before it |
| AgingSamples.AnodeOverhang.CollectData | src/aging/anode_overhang.cpp:99-108 | one sample more with the negated voltage, when enabled |
| AgingSamples.AnodeOverhang.ResetToPointInTime | src/aging/anode_overhang.cpp:110-119 | the arrays lose exactly what was taken later |
| OutputReorder.InRangeExactly | src/cinterface/cinterface.cpp:114-127 | every write is inside the vector if and only if at most one place of the matrix is missing or it has two columns |
| OutputReorder.SevenTwoports | src/cinterface/cinterface.cpp:116-126 | three cells and four elements: the last one goes behind the vector |
| OutputReorder.SlotIsUnique | src/cinterface/cinterface.cpp:118-127 | then no place is written twice |
| OutputReorder.EverySlotUsed | src/cinterface/cinterface.cpp:118-127 | and every place is written: the order is a permutation |
| OutputReorder.Reorder | src/cinterface/cinterface.cpp:114-127 | the loops put at every place the twoport that an independent inverse formula names |
| OutputReorder.RowOfCell | src/cinterface/cinterface.cpp:111-127 | when the count is a multiple of the cells, each row holds a cell and then its own consecutive elements |

## Left out

- XmlParsers.XmlParser.Parse: yields values with string ranges; the linked nodes the parser makes are XmlReading, which
  follows the same function of the text on the text itself and not on the shared buffer.
- XmlParsers.XmlParser.ParseChildren: likewise; the calls of SetTracked, DeleteNode and InsertEndChild are in
  XmlReading.ParseDeep.
- XmlParsers.XmlParser.ParseAttributes: likewise; the attribute pool is in XmlReading.ParseElement.
- XmlReading.ParseDocument: only texts that are read without error. On an error the program deletes nodes it still
  counts as untracked, and clears the pools afterwards. A node is created with the value it gets when it is parsed.
- XmlNodes.XmlDocument.CreateUnlinkedNode: counts pool items instead of taking them from a MemPools.MemPool; the
  free list is proved on its own.
- XmlNodes.XmlNode.SetAttribute: names and values are strings of their own, not string ranges of the shared buffer.
- XmlNodes.XmlNode.FindOrCreateAttribute: the attributes of a node are a sequence rather than a singly linked chain.
- XmlNodes.XmlNode.DeleteAttribute: likewise.
- XmlPrinters.XmlPrinter.PrintDocument: the memory buffer only; a FILE target, PushHeader and the depth argument of
  the constructor are not part of this model.
- CellCapacity.CalculateCellCapacity: the state of charge objects with limits of their own and the open circuit voltage
  itself; charges are exact and the voltage is any function of the two charges. Termination needs that each limit is
  reached, which the code does not ensure.
- ConfigSections.FromConfig: how the text of a value is split into items is a parameter; quoting and arrays of the INI
  format are not part of this model.
- OutputReorder.Reorder: needs at least one cell and is called only when the loop stays inside the vector
  (OutputReorder.InRangeExactly); the column count is the exact ceiling, which the floating-point division gives for
  counts below 2^53.
- AgingSamples.CyclicalAging.GetAverageValue: between recorded times in this order, as CalculateAging calls it.
- AgingSamples.CalendarianAging.CalculateStress: not the capacity and resistance factors, which are powers of the stress
  factors.
- Error messages and the line they name (SetError formats text), and the flush of names for such a message.
- Files and streams, sscanf and snprintf conversions, the typed accessors, XMLVisitor other than the printer, XMLHandle,
  ShallowEqual (it ignores attribute names; trees are compared structurally here).
- Cycle counting and the power and exponential laws of aging, and the classes AgingLAM, AgingLLI and GenericAging.
- The geometry of the thermal elements; only the conductivity matrix is built.
- The rest of CLI11, the simulation classes and the C interface around the reorder loop.
