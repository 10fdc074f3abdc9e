# Verified models of TinyXML, tinyrl and the libucli command engine

The repository is a command shell: libucli resolves and runs commands that
TinyXML reads from files, and tinyrl edits the lines they are typed on. This
project models the three cores and proves what each is for.

**TinyXML** (`XmlText`, `XmlEscaping`, `XmlCondense`, `XmlNumeric`, `XmlTree`,
`XmlParser`, `XmlRoundTrip`, `XmlShape`, `XmlExact`, `XmlEntities`, `XmlSpelling`,
`XmlCut`, `XmlRefused`, `XmlSilent`, `XmlBuilt`, `XmlAttributes`, `XmlDom`, `XmlEdits`,
`XmlStore`, `XmlLayout`, `XmlLoad`, `XmlFile`, `XmlLocation`). Characters, entities and white space are functions with the loops
that compute them; parsing and printing are functions on trees, and once more
methods on a heap of nodes with doubly linked children and a ring of attributes.
The main results: escaping round trips if and only if the text has no "&#x"; print
then parse is the identity on the valid documents, and on no others whose strings
are well formed and close their references; a document is read as the trees it means
however its white space, quotes and references are spelled, and one that goes wrong in
a tag gets the error of that defect; when exactly parsing fails without an error, and
what it leaves; `Clone` is deep, and whole exactly when iteration shows
everything and no string holds a NUL; every sequence of edits at any depth is a
sequence of tree edits; a document saved and loaded is the same document; row and
column do not depend on the path of the `Stamp` calls, which end exactly when the
walk halts.

**tinyrl** (`Terminal`, `LineEditor`, `LineSession`, `TypedLines`, `LineCompletion`,
`LineInput`). The buffer is an array that the current line may alias. The main
result is that the incremental redisplay shows the line after a key if and only
if a test on the old line and the key holds, whether the line is echoed, masked
or not shown, and that over a whole session, recorded whenever a key is waited
for, the terminal shows the right line every time if and only if all keys pass the
test.

**libucli** (`CommandViews`, `CommandResolution`, `CommandLaws`, `ArgumentBinding`,
`BindingLaws`, `ShellRun`, `ShellLaws`, `VariableExpansion`, `VariableLaws`). The
merge of two completion iterators, the resolution of word chains, the binding of
arguments against a declarative reference, the run loop with its stack of script files
as a machine with a theorem per phase, and template expansion. The laws tell, without these references, what every word of a line
binds, what every kind of line does to the stack, and what a variable gives.

A character of a string stands for a byte, though no type limits it to 255,
positions are indices, a `CString` holds no NUL, and reading past a terminator is an
outcome of its own. Memory allocation succeeds.

## What the code does that its descriptions do not say

- A document whose top level element repeats an attribute name is not read, but
  no error is recorded, so `LoadFile` reports success, and what it leaves is an
  element cut off there (`XmlBuilt.RepeatedAttributeIsKept`, tinyxmlparser.cpp:1157-1163).
  The same holds when white space ends the text where the end tag of a top level
  element should be (`XmlSilent.UnclosedIsSilent`, tinyxmlparser.cpp:1116-1118).
  These are all the cases (`XmlSilent.DocumentIsSilent`, `XmlFile.LoadFile`): in a
  nested element either is reported by its parent (`XmlSilent.NestedIsReported`,
  `XmlSilent.NestedRepeatIsReported`).
- With white space condensed, a text that begins with a byte order mark loses it,
  even where its blanks are tidy (`XmlCondense.CondensedRoundTrip`).
- A reference "&#x" that is not closed in its own string is closed by the first ";"
  that is printed behind it, which may be in another attribute (`XmlExact.OpenReference`).
- Copying passes every string through `c_str()`, so a copy is cut at a NUL, which
  a reference can put into a value (`XmlTree.CopyWhole`, `XmlRoundTrip.CopyCutsAtNul`,
  tinyxml.cpp:816-823).
- In UTF-8, tracking rows and columns does not end in a text whose walk comes to a
  byte 0xEF among the last two (`XmlLocation.EndsExactly`, `XmlLocation.EndsInLeadByte`,
  tinyxmlparser.cpp:261-276).
- A hexadecimal reference is read from its last "x", not its first, and a
  decimal one from its last "#" (`XmlNumeric.NumericRefValue`).
- Values from 0x140000 on are written with a lead byte that the length table
  takes for a single byte (`XmlNumeric.Utf8RoundTrip`).
- Iterating over attributes stops at one without name and value
  (`XmlTree.SeenIs`), so such a tree is not copied or printed whole.
- `ReplaceChild` does not refuse a document, unlike the insertions, and then the
  tree is not well formed (`XmlDom.Node.ReplaceChild`).
- The redisplay is wrong after text is typed in front of a rest of the line that
  starts what stands there afterwards (for one letter: all the rest is that letter),
  and after a line of the history is fetched that starts with the shorter line
  shown, with the cursor not at its end.
  When nothing is echoed, an update in the middle of the line takes cells from the
  prompt (`LineSession.WrongDisplays`, `LineSession.AgreesWhenSafe`).
- Killing while a line of the history is shown stores the end of the buffer
  (`LineEditor.Editor.KeyKill`, `LineSession.KillThenYank`, `LineSession.KillsTheOther`).
- Tab inside a word that is already its only match splits the word with a blank
  (`LineCompletion.TabReplaces`, `LineCompletion.TabSplits`), and behind a word in
  front of nothing but blanks it leaves a wrong display (`LineSession.WrongAfterTab`).
- When there is no room for a completed word, the line has lost the word
  (`LineCompletion.CompleteWord`).
- From input that is no terminal, a last line without a line feed is lost when its
  length is a multiple of 79, and what follows a return is lost, up to the line feed
  or to the end of the piece of 79 characters, unless that comes at once
  (`LineInput.LastLine`, `LineInput.ReturnLine`).
- With a limit on the length of a line, a piece of such input that does not fit is
  left out, and a shorter one behind it may still be taken in (`LineInput.ReadInput`).
- `tinyrl_delete_text` with a start behind its end deletes one character
  (`LineEditor.Deleted`), and so completing an empty word in the middle of a line
  removes the blank in front of it, or at the start the whole line
  (`LineCompletion.ReplacesWord`).
- After the completions are used up, asking for the next one starts over
  (`CommandViews.Iterator.FindNextCompletion`).
- The argument table has too little room for exactly the lines that
  `ArgumentBinding.OverflowsExactly` describes (`ArgumentBinding.TooManyEntries`).
- A command whose action begins with an open variable counts as one that does
  nothing (`CommandResolution.ResolveCommand`).
- An empty value is not substituted but counts as missing
  (`VariableExpansion.Retrieve`).

## Model

| member | source | states |
|---|---|---|
| CStrings.StartsWith | clish-original/tinyxml/tinyxmlparser.cpp:534-572 | comparing a tag with the text at a position, letter case aside or not, answers exactly whether the tag stands there, never reads past the terminator, and says no at it |
| XmlText.SkipWhiteSpace | clish-original/tinyxml/tinyxmlparser.cpp:314-362 | both loops stop where the recursive definition of white space and byte order marks does; null only at the terminator |
| XmlText.PutString | clish-original/tinyxml/tinyxml.cpp:37-118 | the escaping loop, with its copying of "&#x" runs, writes the recursively defined text |
| XmlText.PassThrough | clish-original/tinyxml/tinyxml.cpp:43-72 | the inner loop copies up to, and without, the next ";" or the last character |
| XmlText.GetEntity | clish-original/tinyxml/tinyxmlparser.cpp:438-531 | numeric and named references, the malformed ones that give null, and the ampersand that is dropped |
| XmlText.ReadDigits | clish-original/tinyxml/tinyxmlparser.cpp:462-499 | both right-to-left digit loops are one loop with the factor modulo 2^32 and the sum modulo 2^64 |
| XmlText.ConvertUTF32ToUTF8 | clish-original/tinyxml/tinyxmlparser.cpp:88-126 | the fall-through switch that fills the bytes from the back writes the UTF-8 form |
| XmlText.GetChar | clish-original/tinyxml/tinyxml.h:318-352 | one character: entity, byte, or multi-byte sequence as long as the table says |
| XmlText.KeepLoop | clish-original/tinyxml/tinyxmlparser.cpp:583-598 | reading with white space kept stops in front of the tag or at the terminator with the defined text |
| XmlText.CondenseLoop | clish-original/tinyxml/tinyxmlparser.cpp:600-632 | reading with white space condensed gives single spaces between words and none at the ends |
| XmlText.ReadText | clish-original/tinyxml/tinyxmlparser.cpp:574-637 | the text, and a position one tag length behind the stop even when the tag is missing |
| XmlEscaping.ReadPiece | clish-original/tinyxml/tinyxmlparser.cpp:438-531 | reading one escaped character gives that character back and ends behind its piece |
| XmlEscaping.PutThenRead | clish-original/tinyxml/tinyxmlparser.cpp:574-637 | from any index on, wherever the escaped text stands in front of a quote or "<", it is read back and reading ends behind the tag |
| XmlEscaping.RefsShrink | clish-original/tinyxml/tinyxml.cpp:43-72 | a text that PutString copies unescaped somewhere comes back shorter, so the law is sharp |
| XmlEscaping.EscapingRoundTrip | clish-original/tinyxml/tinyxml.cpp:37-118 | for every text, in bytes or well-formed UTF-8: written and read back it is the same if and only if it holds no "&#x" |
| XmlEscaping.PutIsClean | clish-original/tinyxml/tinyxml.cpp:74-117 | escaped text holds neither a terminator nor a carriage return |
| XmlCondense.PutThenCondense | clish-original/tinyxml/tinyxmlparser.cpp:600-632 | reading escaped text with white space condensed gives the condensed text |
| XmlCondense.SqueezedIsTidy | clish-original/tinyxml/tinyxmlparser.cpp:600-632 | condensed text has no blank at an end and no two in a row, whatever the text |
| XmlCondense.SkipInto | clish-original/tinyxml/tinyxmlparser.cpp:314-362 | skipping into the written text goes over the spaces and byte order marks of the text, and no further |
| XmlCondense.CondensedShrinks | clish-original/tinyxml/tinyxmlparser.cpp:600-632 | what is read back is never longer than the text, and shorter when a reference was copied through |
| XmlCondense.CondensedRoundTrip | clish-original/tinyxml/tinyxmlparser.cpp:574-632 | with white space condensed every text, in bytes or well-formed UTF-8, comes back as it was if and only if it holds no "&#x", its blanks are single spaces inside, and it does not begin with what is skipped as a byte order mark; without "&#x" it comes back squeezed behind what is skipped in front |
| XmlNumeric.LoopValue | clish-original/tinyxml/tinyxmlparser.cpp:462-499 | the digit loop succeeds exactly on digits, with their positional value modulo 2^32 |
| XmlNumeric.LoopStops | clish-original/tinyxml/tinyxmlparser.cpp:462-499 | the loop looks only at what follows the last "x" or "#" in the reference |
| XmlNumeric.NumericRefValue | clish-original/tinyxml/tinyxmlparser.cpp:438-512 | a numeric reference is accepted if and only if what follows its last "x" or "#" is digits, and decodes to their value when that is below 2^32 |
| XmlNumeric.Utf8RoundTrip | clish-original/tinyxml/tinyxmlparser.cpp:66-126 | the bytes written decode back to every value, and the lead byte finds their number in utf8ByteTable if and only if the value is below 0x140000 |
| XmlNumeric.LeadBytes | clish-original/tinyxml/tinyxmlparser.cpp:66-85 | the table takes a byte for the first of several if and only if some value below 0x140000 is written with that byte in front |
| XmlEntities.PredefinedRead | clish-original/tinyxml/tinyxmlparser.cpp:513-525 | each of the five entities, written out, is read as its character in either encoding |
| XmlEntities.StrayAmpersand | clish-original/tinyxml/tinyxmlparser.cpp:526-531 | an ampersand that begins no reference leaves nothing in the text |
| XmlEntities.BrokenOff | clish-original/tinyxml/tinyxml.h:318-352 | a UTF-8 character that the text breaks off is filled up with NULs, and reading goes on behind the terminator |
| XmlEntities.CharacterWritten | clish-original/tinyxml/tinyxml.cpp:74-117 | what is written for each character: its entity, a control character by its number in two hexadecimal digits, any other as it is |
| XmlEntities.WrittenJoined | clish-original/tinyxml/tinyxml.cpp:37-118 | a text without "&#x" is written character by character |
| XmlEntities.DigitsAre | clish-original/tinyxml/tinyxmlparser.cpp:462-499 | the digits of a decimal and of a hexadecimal reference, in either letter case |
| XmlEntities.DigitValue | clish-original/tinyxml/tinyxmlparser.cpp:462-499 | and their values |
| XmlTree.SeenIs | clish-original/tinyxml/tinyxml.cpp:1156-1163 | iterating over attributes shows a front part, which ends early only in front of an attribute without name and value |
| XmlTree.SeenWhole | clish-original/tinyxml/tinyxml.cpp:1156-1163 | iteration shows the whole tree if and only if no attribute behind a first one lacks both name and value |
| XmlTree.CopyWhole | clish-original/tinyxml/tinyxml.cpp:810-829 | a copy is the whole tree if and only if iteration shows all of it and no element name, text, attribute name or value in it holds a NUL |
| XmlParser.SkipKeepsTag | clish-original/tinyxml/tinyxmlparser.cpp:1173-1180 | skipping white space never passes a "<" and skipping twice is skipping once |
| XmlRoundTrip.AttrAt | clish-original/tinyxml/tinyxml.cpp:1196-1219 | a printed attribute is parsed back, and parsing ends at its closing quote |
| XmlRoundTrip.AttrsAt | clish-original/tinyxml/tinyxmlparser.cpp:1090-1168 | the attribute loop takes printed attributes in order, behind any already read |
| XmlRoundTrip.KidsAt | clish-original/tinyxml/tinyxmlparser.cpp:1173-1242 | the children of a printed element, at any depth and indentation, are read back up to the end tag |
| XmlRoundTrip.ElementAt | clish-original/tinyxml/tinyxml.cpp:757-807 | the text printed for an element, anywhere in the input, is parsed back to it, ending where it ends |
| XmlRoundTrip.DocumentRoundTrip | clish-original/tinyxml/tinyxml.cpp:1131-1139 | print then parse is the identity on every document of valid elements: names, attributes in order, texts and nesting, in both encodings, with white space kept or condensed; no other documents survive it (`XmlExact.SurvivesExactly`) |
| XmlRoundTrip.RepeatedAttributeIsSilent | clish-original/tinyxml/tinyxmlparser.cpp:1152-1164 | the text of any element that repeats an attribute name fails to parse, with no error |
| XmlRoundTrip.RepeatedAttributeDocument | clish-original/tinyxml/tinyxmlparser.cpp:1152-1164 | the same for the document of that one element |
| XmlRoundTrip.CopyCutsAtNul | clish-original/tinyxml/tinyxml.cpp:816-823 | a document that can be written and read back, whose copy has lost the end of an attribute value |
| XmlRoundTrip.PrintIsInjective | clish-original/tinyxml/tinyxml.cpp:1131-1139 | two valid documents that print alike are the same |
| XmlSpelling.AttrSpelled | clish-original/tinyxml/tinyxmlparser.cpp:1357-1432 | an attribute with any white space in front and around its "=", the value escaped or as it is in either quotes, or without quotes up to white space, a slash or ">", is read as that name and value, to its end |
| XmlSpelling.AttrsSpelled | clish-original/tinyxml/tinyxmlparser.cpp:1088-1168 | the attribute loop takes any number of them in order |
| XmlSpelling.ElementSpelled | clish-original/tinyxml/tinyxmlparser.cpp:1049-1242 | an element with any white space inside and between its tags, and any children, text in any spelling or nothing in it, is read as the tree that is meant, and reading ends behind it |
| XmlSpelling.KeptValue | clish-original/tinyxml/tinyxmlparser.cpp:1183-1209 | a text whose white space is kept comes with the white space in front and behind |
| XmlSpelling.ProseValue | clish-original/tinyxml/tinyxmlparser.cpp:1183-1209 | a text that is condensed is its words with one blank between them |
| XmlSpelling.DocumentSpelled | clish-original/tinyxml/tinyxmlparser.cpp:704-796 | a document of such elements is read as those trees, to its end |
| XmlSpelling.NoName | clish-original/tinyxml/tinyxmlparser.cpp:1371-1378 | where an attribute should be, anything but a name is refused |
| XmlSpelling.NoEquals | clish-original/tinyxml/tinyxmlparser.cpp:1379-1384 | and so is a name with no "=" behind it |
| XmlSpelling.QuoteInside | clish-original/tinyxml/tinyxmlparser.cpp:1416-1429 | and a value without quotes that has one inside |
| XmlSpelling.EmptyValue | clish-original/tinyxml/tinyxmlparser.cpp:1416-1431 | without quotes a value may be empty, in front of a slash or ">" |
| XmlRefused.Refused | clish-original/tinyxml/tinyxmlparser.cpp:1049-1170 | a document whose text ends in a tag, or in which a tag goes wrong, behind any roots, in any open elements and whatever stands behind: the error for each of eight defects, and the tree that is left |
| XmlRefused.BrokenFails | clish-original/tinyxml/tinyxmlparser.cpp:1066-1145 | the same for the element itself, wherever it stands |
| XmlCut.OpenElement | clish-original/tinyxml/tinyxmlparser.cpp:1107-1118 | an element that is not closed where the text ends, with elements open in it: what it fails with and what is left |
| XmlCut.DocumentCut | clish-original/tinyxml/tinyxmlparser.cpp:1107-1118 | a document of that element is left as far as it was written; the error is recorded unless one element is open and white space ends the text |
| XmlCut.DocumentEnds | clish-original/tinyxml/tinyxmlparser.cpp:742-795 | of a document that is read the last root ends the text, so that the position returned is null, if and only if no white space stands behind it |
| XmlShape.RootsShaped | clish-original/tinyxml/tinyxmlparser.cpp:704-796 | whatever the input, a document that is read holds elements whose names are names and whose attributes have different ones, and texts that are not blank and not next to each other |
| XmlShape.ElementShaped | clish-original/tinyxml/tinyxmlparser.cpp:1049-1242 | the same for an element read at any position |
| XmlExact.KeptTail | clish-original/tinyxml/tinyxmlparser.cpp:583-598 | reading a written text with white space behind it stops in front of the tag, if at all, and what is read ends in the white space at the end of the text and that behind it |
| XmlExact.KeptBack | clish-original/tinyxml/tinyxmlparser.cpp:574-598 | so a text or value comes back as it was only if nothing is written between it and its tag, and it holds no "&#x" |
| XmlExact.CondensedBack | clish-original/tinyxml/tinyxmlparser.cpp:600-632 | with white space condensed, only if it holds no "&#x", is tidy and does not begin with what is skipped as a byte order mark |
| XmlExact.AttrsBack | clish-original/tinyxml/tinyxmlparser.cpp:1090-1168 | attributes that are read as they were written have valid values |
| XmlExact.KidsBack | clish-original/tinyxml/tinyxmlparser.cpp:1173-1242 | children that are read as they were written are valid, and a text that keeps its white space is the only one |
| XmlExact.ElementBack | clish-original/tinyxml/tinyxml.cpp:757-807 | an element that is read as it was written, wherever it stands, is valid |
| XmlExact.SurvivesExactly | clish-original/tinyxml/tinyxml.cpp:1131-1139 | print then parse gives a document back, to its end, if and only if it has a root and is valid: names, different ones for attributes, values without "&#x", and texts that are not blank, hold none and stand next to no other text, and that are tidy and begin with no byte order mark where white space is condensed, or the only child and more than what is skipped where it is kept; for all documents whose strings are well formed and close their references |
| XmlExact.OpenReference | clish-original/tinyxml/tinyxml.cpp:43-72 | a reference that is not closed takes in the next attribute, which is lost |
| XmlSilent.ContentIsLoud | clish-original/tinyxml/tinyxmlparser.cpp:1173-1242 | the content of an element never fails without an error; it is read to the end of the text if and only if, behind some children, that ends in white space |
| XmlSilent.ElementIsSilent | clish-original/tinyxml/tinyxmlparser.cpp:1049-1170 | an element fails without an error if and only if it repeats an attribute name in its own start tag or its content runs to the end of the text through white space |
| XmlSilent.NestedIsReported | clish-original/tinyxml/tinyxmlparser.cpp:1220-1240 | content with such an element behind any number of children fails with the error of reading an element value |
| XmlSilent.NestedElementIsReported | clish-original/tinyxml/tinyxmlparser.cpp:1107-1118 | so does the element around it |
| XmlSilent.NestedRepeatIsReported | clish-original/tinyxml/tinyxmlparser.cpp:1152-1164 | the document of an element around one that repeats an attribute name fails with that error |
| XmlSilent.DocumentIsSilent | clish-original/tinyxml/tinyxmlparser.cpp:704-796 | a document fails without an error if and only if the first top level element that fails is such an element |
| XmlSilent.UnclosedIsSilent | clish-original/tinyxml/tinyxmlparser.cpp:1116-1118 | a start tag and white space are enough |
| XmlBuilt.ElementIsBuilt | clish-original/tinyxml/tinyxmlparser.cpp:1049-1170 | what is left in the nodes of an element that could be read is the element |
| XmlBuilt.RootsAreBuilt | clish-original/tinyxml/tinyxmlparser.cpp:742-775 | the same for the roots of a document |
| XmlBuilt.RepeatedAttributeIsKept | clish-original/tinyxml/tinyxmlparser.cpp:1152-1164 | loading a repeated attribute name fails without an error and leaves the element with the attributes in front of it, that one overwritten, and none of what follows |
| XmlAttributes.Attribute.Next | clish-original/tinyxml/tinyxml.cpp:1156-1163 | the sentinel is recognised by its empty name and value |
| XmlAttributes.AttributeSet.constructor | clish-original/tinyxml/tinyxml.cpp:1484-1488 | an empty ring: the sentinel is its own neighbour |
| XmlAttributes.AttributeSet.Add | clish-original/tinyxml/tinyxml.cpp:1498-1511 | keeps the ring linked both ways through the sentinel and appends to its list |
| XmlAttributes.AttributeSet.Remove | clish-original/tinyxml/tinyxml.cpp:1513-1529 | keeps the ring linked, takes exactly that node out, clears its links; a node that is not there changes nothing |
| XmlAttributes.AttributeSet.Find | clish-original/tinyxml/tinyxml.cpp:1557-1566 | the first node of that name along the ring, or null if none has it |
| XmlAttributes.AttributeSet.Set | clish-original/tinyxml/tinyxml.cpp:703-731 | overwrites in place or appends, keeping names distinct |
| XmlAttributes.AttributeSet.First | clish-original/tinyxml/tinyxml.h:905-906 | the first node, the sentinel being recognised by its address |
| XmlAttributes.AttributeSet.CopyTo | clish-original/tinyxml/tinyxml.cpp:816-823 | an empty set gets the attributes iteration shows, in order, names and values cut at a NUL, and nothing it had is shared |
| XmlAttributes.SetNext | clish-original/tinyxml/tinyxml.cpp:816-823 | setting the attributes of a list with distinct names one by one rebuilds the list |
| XmlDom.Node.LinkEndChild | clish-original/tinyxml/tinyxml.cpp:170-194 | keeps the sibling list well formed and appends; a document is refused |
| XmlDom.Node.InsertEndChild | clish-original/tinyxml/tinyxml.cpp:197-209 | appends a fresh copy, cut at NULs; a document is refused |
| XmlDom.Node.InsertBeforeChild | clish-original/tinyxml/tinyxml.cpp:212-241 | inserts a fresh copy, cut at NULs, at the child's index; nothing happens for a child of another node or a document |
| XmlDom.Node.InsertAfterChild | clish-original/tinyxml/tinyxml.cpp:244-273 | inserts a fresh copy, cut at NULs, behind the child's index; nothing happens for a child of another node or a document |
| XmlDom.Node.ReplaceChild | clish-original/tinyxml/tinyxml.cpp:276-301 | updates the list at the child's index with a fresh copy and gives up the old subtree; the sibling list stays in order, and the tree is well formed if and only if nothing was replaced or the new node is no document |
| XmlDom.Node.Renew | clish-original/tinyxml/tinyxml.cpp:281-300 | taking a node in the place of a child keeps the tree well formed if and only if it is no document |
| XmlDom.Node.RemoveChild | clish-original/tinyxml/tinyxml.cpp:304-324 | deletes at the child's index, and gives up the subtree; false for a child of another node |
| XmlDom.Node.LinkLast | clish-original/tinyxml/tinyxml.cpp:182-193 | prev and next stay mutually inverse, first and last child the ends, parents point back |
| XmlDom.Node.LinkBefore | clish-original/tinyxml/tinyxml.cpp:226-240 | the same, splicing in front of a child |
| XmlDom.Node.LinkAfter | clish-original/tinyxml/tinyxml.cpp:258-272 | the same, splicing behind a child |
| XmlDom.Node.Exchange | clish-original/tinyxml/tinyxml.cpp:285-300 | the same, in the place of a child |
| XmlDom.Node.Unlink | clish-original/tinyxml/tinyxml.cpp:312-320 | the same, cutting a child out |
| XmlDom.Node.SetAttribute | clish-original/tinyxml/tinyxml.cpp:703-731 | the tree stays well formed and its attribute list is overwritten or extended |
| XmlDom.Node.Clone | clish-original/tinyxml/tinyxml.cpp:846-854 | a deep copy: same kind and flag, value, attributes and children in order as iteration shows them with every string cut at its first NUL, every object fresh, and the original untouched |
| XmlDom.Node.CopyTo | clish-original/tinyxml/tinyxml.cpp:810-829 | the copying behind it, for elements, texts and documents |
| XmlDom.Node.CopyInto | clish-original/tinyxml/tinyxml.cpp:824-828 | a fresh copy becomes the last child of the target |
| XmlDom.Node.Spliced | clish-original/tinyxml/tinyxml.cpp:226-240 | re-linked neighbours of an inserted node make a well-formed list again |
| XmlDom.Node.Cut | clish-original/tinyxml/tinyxml.cpp:312-320 | re-linked neighbours of a removed node make a well-formed list again |
| XmlDom.Node.ForestInsert | clish-original/tinyxml/tinyxml.cpp:170-194 | a subtree with objects of its own joins subtrees that share none, and all stay well formed |
| XmlDom.Node.ForestRemove | clish-original/tinyxml/tinyxml.cpp:304-324 | taking a subtree away leaves the others well formed and takes exactly its objects |
| XmlEdits.Apply | clish-original/tinyxml/tinyxml.cpp:170-324 | each edit of a node, linking, inserting, replacing, removing or setting an attribute, acts on its tree as on a list, also when the copy is taken from the same tree |
| XmlEdits.EditAt | clish-original/tinyxml/tinyxml.cpp:170-324 | an edit at any depth keeps the whole tree well formed and changes nothing of the tree it stands for but the node edited |
| XmlEdits.TakeStep | clish-original/tinyxml/tinyxml.cpp:170-324 | the same with the copy taken from an outside node or from any place in the document itself |
| XmlEdits.EditAll | clish-original/tinyxml/tinyxml.cpp:170-324 | every sequence of edits, at whatever depths, of copies and of nodes of the caller's own, keeps the document well formed and acts as the same sequence on its tree |
| XmlStore.PrintAttribute | clish-original/tinyxml/tinyxml.cpp:1196-1219 | name and value escaped, in the quotes the value does not hold |
| XmlStore.PrintNode | clish-original/tinyxml/tinyxml.cpp:757-807 | what is appended for a node is the text of the tree it stands for |
| XmlStore.PrintLayout | clish-original/tinyxml/tinyxml.cpp:779-806 | the three layouts of an element |
| XmlStore.PrintText | clish-original/tinyxml/tinyxml.cpp:1317-1335 | a text escaped, or a CDATA section with its indentation |
| XmlLayout.ElementPrinted | clish-original/tinyxml/tinyxml.cpp:757-807 | an element is written as lines: one for each tag, four blanks for each level, one line for an element without content or with a text, values in the quotes they do not hold |
| XmlLayout.DocumentPrinted | clish-original/tinyxml/tinyxml.cpp:1131-1139 | a document is written as the lines of its elements |
| XmlLayout.SectionPrinted | clish-original/tinyxml/tinyxml.cpp:1317-1335 | a CDATA section stands on a line of its own and is not escaped |
| XmlStore.Save | clish-original/tinyxml/tinyxml.cpp:1088-1102 | the file is the byte order mark, if asked for, and the text of the document |
| XmlLoad.Errors.SetError | clish-original/tinyxml/tinyxmlparser.cpp:798-806 | the first error stays |
| XmlLoad.ReadName | clish-original/tinyxml/tinyxmlparser.cpp:401-436 | the name loop ends where the definition says |
| XmlLoad.ReadAttribute | clish-original/tinyxml/tinyxmlparser.cpp:1357-1432 | name, value, returned position and recorded error are those of the parsing function, for every input; what that function makes of any spelling is `XmlSpelling.AttrSpelled` |
| XmlLoad.AddAttribute | clish-original/tinyxml/tinyxmlparser.cpp:1153-1166 | a new name is added to the ring; a repeated one overwrites with its value up to a NUL and is reported |
| XmlLoad.ReadElement | clish-original/tinyxml/tinyxmlparser.cpp:1049-1170 | the node stays well formed whatever happens; position and error are those of the parsing function, and what the node stands for, also after a failure, is what the building function says |
| XmlLoad.ReadStart | clish-original/tinyxml/tinyxmlparser.cpp:1049-1083 | the name is taken, even when parsing fails behind it, and position and error are those of the parsing function |
| XmlLoad.ReadRest | clish-original/tinyxml/tinyxmlparser.cpp:1088-1169 | the attribute loop, the empty tag, and the way into children and end tag |
| XmlLoad.ReadContent | clish-original/tinyxml/tinyxmlparser.cpp:1107-1130 | children and end tag, with position, error and what is left as the functions say |
| XmlLoad.ReadNextAttribute | clish-original/tinyxml/tinyxmlparser.cpp:1132-1167 | one turn of the attribute loop leaves the same result to be computed |
| XmlLoad.ReadValue | clish-original/tinyxml/tinyxmlparser.cpp:1173-1242 | the children loop links exactly the children, those it failed on included |
| XmlLoad.ReadTextNode | clish-original/tinyxml/tinyxmlparser.cpp:1183-1209 | a text is linked unless it is blank |
| XmlFile.ReadDocument | clish-original/tinyxml/tinyxmlparser.cpp:704-796 | the document's children are the parsed roots, or after a failure what was built of them; an empty document is an error; the position is null after a failure and where an element ends the text; a byte order mark that decides the encoding is remembered |
| XmlFile.Normalize | clish-original/tinyxml/tinyxml.cpp:1019-1060 | the loop that appends whole runs turns CR LF and lone CR into LF |
| XmlFile.LinesHaveNoReturn | clish-original/tinyxml/tinyxml.cpp:989-998 | no carriage return is left, and a text is unchanged if and only if it has none |
| XmlFile.BreaksBecomeFeeds | clish-original/tinyxml/tinyxml.cpp:989-1060 | lines with CR LF, CR or LF between them come out as the same lines with one LF between them |
| XmlFile.LoadFile | clish-original/tinyxml/tinyxml.cpp:959-1071 | loading answers true if and only if the normalised text, up to its first NUL, is parsed or fails without an error, which is characterised; what was built is in the document in either case |
| XmlFile.FileRoundTrip | clish-original/tinyxml/tinyxml.cpp:1088-1102 | the file saved for a valid document, with or without byte order mark, normalises to itself, has its encoding detected and parses to the document |
| XmlFile.SaveAndLoad | clish-original/tinyxml/tinyxml.cpp:959-1102 | on the heap: any valid document saved and loaded into another one is there again, the first is unchanged, and a byte order mark found will be written again |
| XmlLocation.ParsingData.Stamp | clish-original/tinyxml/tinyxmlparser.cpp:196-311 | one call walks from the last stamp to the first character boundary at or behind the position, whenever the walk halts |
| XmlLocation.ParsingData.StampAll | clish-original/tinyxml/tinyxmlparser.cpp:196-311 | any sequence of calls, in any order, leaves row, column and stamp of one call at the largest position |
| XmlLocation.EndsExactly | clish-original/tinyxml/tinyxmlparser.cpp:212-304 | the loop ends after some number of turns if and only if the walk meets no byte 0xEF, in UTF-8, without two bytes behind it; then it ends where the walk does |
| XmlLocation.HaltsInside | clish-original/tinyxml/tinyxmlparser.cpp:261-276 | it halts whenever no such byte is among those passed, wherever characters begin |
| XmlLocation.EndsInLeadByte | clish-original/tinyxml/tinyxmlparser.cpp:261-276 | a text of five bytes whose parsing fails at its last one, to which the walk does not come |
| XmlLocation.WalkTwice | clish-original/tinyxml/tinyxmlparser.cpp:196-311 | path independence of the walk, also inside a CR LF or a multi-byte character |
| XmlLocation.RowAndColumn | clish-original/tinyxml/tinyxmlparser.cpp:212-304 | in single bytes without returns and tabs the row counts the line feeds and the column the bytes behind the last one |
| XmlLocation.RowsAreBreaks | clish-original/tinyxml/tinyxmlparser.cpp:212-304 | in single bytes and in whole UTF-8 characters the walk halts and the row counts the line breaks, a pair of CR and LF in either order being one |
| XmlLocation.ColumnsAreChars | clish-original/tinyxml/tinyxmlparser.cpp:212-304 | without tabs the column counts the characters since the start of the line, continuation bytes and byte order marks taking none |
| XmlLocation.TabStops | clish-original/tinyxml/tinyxmlparser.cpp:253-259 | a tab leads to the next tab stop: the smallest multiple of the tab size behind the column |
| XmlLocation.TabInFront | clish-original/tinyxml/tinyxmlparser.cpp:253-259 | a column in front of the first, by less than a tab, counts as the first |
| XmlLocation.ColumnsBehindTab | clish-original/tinyxml/tinyxmlparser.cpp:212-304 | behind a tab the column counts on from there |
| XmlLocation.LineIs | clish-original/tinyxml/tinyxmlparser.cpp:224-251 | the start of the line is behind the last line break |
| XmlLocation.BreaksAlone | clish-original/tinyxml/tinyxmlparser.cpp:224-251 | where CR and LF do not meet, every one of them is a line break |
| XmlLocation.BreaksPaired | clish-original/tinyxml/tinyxmlparser.cpp:224-251 | where they come in pairs only, the pairs are |
| Terminal.Vt100.Erase | contrib/tinyrl/vt100.h:220-224 | deletes cells at the cursor and moves the rest left |
| Terminal.PrintedCells | contrib/tinyrl/tinyrl.c:600-630 | printing puts a text over the cells at the cursor and leaves the others |
| Terminal.ErasedCells | contrib/tinyrl/vt100.h:220-224 | erasing takes cells away at the cursor, the rest moves up |
| LineEditor.Editor.ChangedLine | contrib/tinyrl/tinyrl.c:64-76 | a history line becomes a copy in a buffer of its own; otherwise nothing changes |
| LineEditor.Editor.ExtendLineBuffer | contrib/tinyrl/tinyrl.c:815-878 | succeeds if and only if the size fits, is unlimited, or is below the limit; the line is kept |
| LineEditor.Editor.Start | contrib/tinyrl/tinyrl.c:666-685 | a new line: empty buffer, nothing displayed yet, the kill string kept |
| LineEditor.Editor.InsertText | contrib/tinyrl/tinyrl.c:883-926 | splices at the insertion point, keeping point <= end = length <= size and the terminator; exactly when it fails, and then only the aliasing changes |
| LineEditor.Editor.Splice | contrib/tinyrl/tinyrl.c:903-924 | the memmove and strncpy in the array |
| LineEditor.Editor.DeleteText | contrib/tinyrl/tinyrl.c:969-1025 | deletes the inclusive range, clamped at the end, whatever stands behind the terminator; a start behind the end is moved to the end |
| LineEditor.Editor.Shift | contrib/tinyrl/tinyrl.c:994-1024 | the memmove in the array and the three index adjustments |
| LineEditor.Editor.KeyDefault | contrib/tinyrl/tinyrl.c:78-99 | inserts the key, or for a control key a tilde and its number, as `TypedLines.PrintableKey` and `TypedLines.ControlKey` say without the text function |
| LineEditor.Editor.KeyInterrupt | contrib/tinyrl/tinyrl.c:101-111 | empties the line and ends it |
| LineEditor.Editor.KeyEnter | contrib/tinyrl/tinyrl.c:166-176 | finishes the line and leaves it |
| LineEditor.Editor.KeyKill | contrib/tinyrl/tinyrl.c:135-150 | cuts the line at the insertion point and stores the end of the buffer, which is what was cut if the line is the buffer |
| LineEditor.Editor.KeyYank | contrib/tinyrl/tinyrl.c:152-165 | inserts the kill string; it never fails while the size suffices |
| LineEditor.Editor.KeyUp | contrib/tinyrl/tinyrl.c:178-207 | shows the history entry with the cursor at its end, leaving the buffer alone |
| LineEditor.Editor.KeyDown | contrib/tinyrl/tinyrl.c:209-237 | the next entry, or the buffer as it was |
| LineEditor.Editor.KeyStartOfLine | contrib/tinyrl/tinyrl.c:112-122 | the cursor goes to the start |
| LineEditor.Editor.KeyEndOfLine | contrib/tinyrl/tinyrl.c:123-133 | the cursor goes to the end |
| LineEditor.Editor.KeyLeft | contrib/tinyrl/tinyrl.c:239-252 | one step left unless at the start |
| LineEditor.Editor.KeyRight | contrib/tinyrl/tinyrl.c:254-267 | one step right unless at the end |
| LineEditor.Editor.KeyBackspace | contrib/tinyrl/tinyrl.c:269-283 | removes the character in front of the cursor |
| LineEditor.Editor.KeyDelete | contrib/tinyrl/tinyrl.c:285-298 | removes the character at the cursor |
| LineEditor.Editor.KeyEraseLine | contrib/tinyrl/tinyrl.c:314-326 | removes everything up to and with the character at the cursor |
| LineEditor.Editor.TrimLast | contrib/tinyrl/tinyrl.c:704-714 | a finished line loses one blank at its end |
| LineEditor.Editor.Redisplay | contrib/tinyrl/tinyrl.c:520-640 | if the terminal showed the last line, it shows the current one afterwards if and only if the update meets the stated condition, with an echo, an echo character or none; the same for a first display |
| LineEditor.Editor.Begin | contrib/tinyrl/tinyrl.c:600-610 | what the prompt, the line and the step back of the cursor make of the row |
| LineEditor.Editor.Update | contrib/tinyrl/tinyrl.c:530-630 | what the update makes of any row, whatever it shows |
| LineEditor.BegunShows | contrib/tinyrl/tinyrl.c:600-610 | a first display is right if and only if there is an echo, the cursor is at the end, or there is no prompt |
| LineEditor.UpdatedShows | contrib/tinyrl/tinyrl.c:530-630 | an update of a row that shows the last line shows the current one if and only if it meets the condition |
| LineEditor.Editor.ResetLineState | contrib/tinyrl/tinyrl.c:1147-1155 | the line is displayed from scratch where the cursor is |
| LineEditor.ExtendShows | contrib/tinyrl/tinyrl.c:537-542 | printing only what is new is right if and only if nothing is echoed or both cursors are at the end of the line |
| LineEditor.ShrinkShows | contrib/tinyrl/tinyrl.c:547-570 | deleting cells at the cursor is right if and only if the text behind them is the text wanted, or is masked |
| LineEditor.RedrawShows | contrib/tinyrl/tinyrl.c:611-630 | with an echo, erasing and printing again is always right |
| LineEditor.SilentRedraw | contrib/tinyrl/tinyrl.c:611-630 | without one it is right if and only if there is no prompt, or the cursor was in front of the old line and is behind the new one |
| LineSession.DeletionUpdates | contrib/tinyrl/tinyrl.c:520-640 | with an echo, every deletion that leaves the cursor where it cut meets the condition |
| LineSession.TypingUpdates | contrib/tinyrl/tinyrl.c:520-640 | with an echo, typing meets it if and only if it is at the end of the line or the rest of the line does not start what stands there afterwards |
| LineSession.HistoryUpdates | contrib/tinyrl/tinyrl.c:520-640 | with an echo, a history line meets it if and only if it does not extend the old line, or the cursor was at the end |
| LineSession.SilentUpdates | contrib/tinyrl/tinyrl.c:520-640 | without one, an update meets it if and only if there is no prompt, one line starts the other, or the cursor moves from the front of the old line to the end of the new one |
| LineSession.WrongDisplays | contrib/tinyrl/tinyrl.c:537-542 | three inputs that leave a wrong display |
| LineSession.AgreesWhenSafe | contrib/tinyrl/tinyrl.c:520-640 | for every state and every key but tab, which may be displayed twice, the update is right if and only if a test on the line and the key holds; with an echo, moving and deleting always pass, without one, moving and cutting off |
| LineSession.AgreesInSilence | contrib/tinyrl/tinyrl.c:520-640 | that test when nothing is echoed |
| LineSession.CompletionUpdates | contrib/tinyrl/tinyrl.c:1212-1231 | with an echo, the update to the completed line is right if and only if it does not extend the old one, or the cursor was at the end; taking the word away always is |
| LineSession.BlankShows | contrib/tinyrl/tinyrl.c:520-640 | the two updates after tab with one match: with an echo, the second repairs a wrong first one unless it prints only the blank; without one, both must be right |
| LineSession.SilentTwice | contrib/tinyrl/tinyrl.c:611-630 | in silence nothing is put back that was taken from the prompt |
| LineSession.TabShows | contrib/tinyrl/tinyrl.c:353-382 | after tab the terminal shows the line if and only if a test on the line, the completions and the limit holds |
| LineSession.WrongAfterTab | contrib/tinyrl/tinyrl.c:353-382 | a line and its only match after which tab leaves a wrong display |
| LineSession.Handle | contrib/tinyrl/tinyrl.c:78-352 | what each key but tab does to line, buffer and kill string, and which keys finish the line |
| LineSession.Press | contrib/tinyrl/tinyrl.c:685-702 | one key, tab included, and its redisplay: when the line was displayed, or is displayed from scratch, then it is displayed afterwards if and only if the key was good; what the terminal shows then is what it shows when the next key is waited for |
| LineSession.Finish | contrib/tinyrl/tinyrl.c:697-715 | a key that finishes the line leaves what the key makes of it, trimmed |
| LineSession.Session | contrib/tinyrl/tinyrl.c:685-725 | every sequence of keys up to the one that finishes the line leaves the line the keys make, trimmed, or nothing when the input ends before; a key is waited for once after each of them, and what the terminal then shows is the right line up to the first key that is not good and not after that one; it is right when all keys since the line was displayed from scratch were good |
| LineSession.ReadLine | contrib/tinyrl/tinyrl.c:660-805 | a line read from the prompt on starts empty, with only the kill string left from before; whenever a key is waited for the terminal shows the right line, if and only if all keys are good |
| LineSession.BackspacesUndo | contrib/tinyrl/tinyrl.c:269-283 | as many backspaces as characters inserted restore line and cursor |
| TypedLines.PrintableKey | contrib/tinyrl/tinyrl.c:78-91 | every key from the blank on puts its character in at the cursor, if there is room |
| TypedLines.ControlKey | contrib/tinyrl/tinyrl.c:92-98 | every key below puts in a tilde and the decimal digits of its code, without a zero in front |
| TypedLines.EnterFinishes | contrib/tinyrl/tinyrl.c:704-714 | enter finishes the line as it is, less one blank at its end |
| TypedLines.TypedLine | contrib/tinyrl/tinyrl.c:685-725 | keys typed into an empty line without a limit, and then enter, give those characters, less one blank at the end |
| TypedLines.EchoHides | contrib/tinyrl/tinyrl.c:520-640 | a row shows prompt and line, or with an echo character no more than the length of the line, or in silence the prompt alone |
| LineSession.KillThenYank | contrib/tinyrl/tinyrl.c:135-165 | kill then yank restores the line under any length limit; where a history line is shown, if and only if it ends as the buffer does |
| LineSession.KillsTheOther | contrib/tinyrl/tinyrl.c:135-165 | a line of the history and a buffer for which they do not |
| LineCompletion.Agree | contrib/tinyrl/tinyrl.c:1097-1105 | the inner loop finds the longest common prefix without regard to case |
| LineCompletion.SubstitutesMore | contrib/tinyrl/tinyrl.c:1090-1106 | cutting the substitution down for one more match keeps it the longest shared prefix |
| LineCompletion.Completion | contrib/tinyrl/tinyrl.c:1056-1117 | entry 0 is the longest prefix of the first match that all matches start with, entries 1 to n are the matches, then null, inside the array grown by tens; null without matches |
| LineCompletion.CompleteWord | contrib/tinyrl/tinyrl.c:1190-1232 | what is deleted and inserted around the cursor, when, and exactly when there is no room |
| LineCompletion.ReplacesWord | contrib/tinyrl/tinyrl.c:1222-1231 | that replaces exactly the word in front of the cursor if and only if there is one or the cursor is at the end of the line |
| LineCompletion.Complete | contrib/tinyrl/tinyrl.c:1197-1280 | the status of a completion, exactly, under any limit; the line it leaves, also when there is no room; when the matches are listed; and what the terminal shows |
| LineCompletion.KeyTab | contrib/tinyrl/tinyrl.c:353-382 | the line after tab, under any limit: a blank is added if and only if there is one match and room for both |
| LineCompletion.TabReplaces | contrib/tinyrl/tinyrl.c:353-382 | that puts the match and a blank in the place of the word if and only if the line does not go on like the match, but for the word being the match |
| LineCompletion.TabSplits | contrib/tinyrl/tinyrl.c:353-382 | a word, its only match, and the blank that splits it |
| LineInput.ReadInput | contrib/tinyrl/tinyrl.c:726-805 | the loop over the pieces that fgets reads gives, under any limit, the line made of the pieces that fit, without blanks in front, or nothing, and leaves the input behind it |
| LineInput.PieceIs | contrib/tinyrl/tinyrl.c:735-770 | a full piece without CR and LF is passed, and in any other one the line ends |
| LineInput.FedLine | contrib/tinyrl/tinyrl.c:726-789 | of lines that end in line feeds every one is read whole, and then the next |
| LineInput.LastLine | contrib/tinyrl/tinyrl.c:735-778 | a last line without one is read unless it is blank or its length is a multiple of 79 |
| LineInput.ReturnLine | contrib/tinyrl/tinyrl.c:735-748 | a return in any piece ends the line too; what follows it, up to the line feed or to the end of its piece, is lost, and that is nothing if and only if one of them comes at once |
| LineInput.ShortLine | contrib/tinyrl/tinyrl.c:815-878 | a line that keeps to the limit is read as without one |
| LineInput.KeepsLimit | contrib/tinyrl/tinyrl.c:815-878 | whatever the input, what is read keeps to the limit |
| LineInput.DropBlanksJoin | contrib/tinyrl/tinyrl.c:750-758 | blanks are dropped up to the first piece that is more than blanks |
| LineInput.BlanksDropped | contrib/tinyrl/tinyrl.c:750-758 | what goes is white space, and what stays begins with something else |
| CommandViews.CmpChains | libucli.modified/command.c:345-366 | the case-insensitive comparison is transitive |
| CommandViews.FindNextInView | libucli.modified/view.c:228-267 | the next completion of a view behind the last one |
| CommandViews.Iterator.FindNextCompletion | libucli.modified/shell.c:254-284 | gives the first of what both views still have and leaves the rest; after null it starts over |
| CommandViews.CollectCompletions | libucli.modified/shell.c:770-790 | getfirst then getnext yields exactly the merge, then null, after finitely many calls |
| CommandViews.MergedIsUnion | libucli.modified/shell.c:254-284 | the merge is strictly increasing and holds exactly the local commands and the global ones of other names |
| CommandViews.CompletionsOfBoth | libucli.modified/shell.c:254-284 | what is offered for a line: every completion of either view once, the local command where both define it |
| CommandViews.AfterIs | libucli.modified/view.c:228-267 | what follows a key in the tree is exactly what is greater |
| CommandLaws.SameNameMeans | libucli.modified/command.c:345-366 | names count as the same if and only if they have the same length and letters, case aside |
| CommandLaws.LessMeans | libucli.modified/command.c:345-366 | one comes before the other if and only if, behind a common beginning, it ends or has the smaller letter |
| CommandLaws.CompletesMeans | libucli.modified/view.c:228-267 | a command completes a line if and only if it begins with it and has as many words, or one more when a word begins at the end of the line |
| CommandResolution.ResolvePrefix | libucli.modified/view.c:157-195 | the command for exactly that many words, found by the loop that grows the buffer |
| CommandResolution.Resolved | libucli.modified/view.c:170-188 | the number of words resolved: all beginnings up to it are commands, and the next is not |
| CommandResolution.DepthIsLargest | libucli.modified/view.c:170-188 | that k is unique and largest |
| CommandResolution.LongestMatch | libucli.modified/view.c:157-195 | in a prefix closed view it is the longest matching command |
| CommandResolution.DeeperChainWins | libucli.modified/command.c:323-343 | choosing by name length picks the view that resolves more words, the local one on a tie |
| CommandResolution.ShellResolvePrefix | libucli.modified/shell.c:1154-1166 | both views together |
| CommandResolution.ResolveCommand | libucli.modified/view.c:198-220 | a resolved command that counts is the result, and any other gives none (`CommandLaws.ActiveMeans`); the environment has no say |
| CommandResolution.ShellResolveCommand | libucli.modified/shell.c:1135-1148 | the same among commands that do something |
| CommandLaws.JoinedIs | libucli.modified/view.c:170-188 | the words are looked up with one blank between them |
| CommandLaws.ResolvesTo | libucli.modified/view.c:157-195 | the command resolved bears these words as its name, every shorter beginning is a command, and the next is not |
| CommandLaws.ActiveMeans | libucli.modified/view.c:198-220 | a command counts if and only if it has a builtin, a view, or an action that is not empty and does not begin with a variable that nothing closes |
| ArgumentBinding.Pargv.FindParg | libucli.modified/pargv.c:35-57 | the entry of that name, or none |
| ArgumentBinding.Pargv.InsertParg | libucli.modified/pargv.c:59-78 | overwrites the value of the name or appends an entry |
| ArgumentBinding.SetDefaults | libucli.modified/pargv.c:80-110 | the table holds the defaults in parameter order, translated unless empty, with distinct names that are all parameters |
| ArgumentBinding.NextNonOption | libucli.modified/command.c:383-402 | the raw index walks the positional parameters one by one |
| ArgumentBinding.FindOption | libucli.modified/command.c:477-501 | the first option that goes by the word, all before it do not, or none does |
| ArgumentBinding.NextBinding | libucli.modified/pargv.c:136-233 | one turn of the word loop binds what the reference binds next, or fails as it does; what each word binds is `BindingLaws.WholeLine` |
| ArgumentBinding.TakeRest | libucli.modified/pargv.c:199-224 | the remaining words with their quotes and single spaces |
| ArgumentBinding.Init | libucli.modified/pargv.c:112-248 | for every line that does not overflow: succeeds if and only if the reference does, with exactly its table; `BindingLaws.AcceptedExactly` and `BindingLaws.TableHolds` tell which lines and which values those are |
| ArgumentBinding.PutAllGives | libucli.modified/pargv.c:59-78 | names stay distinct and each carries what was bound to it last, else its default |
| BindingLaws.PartsAreUnique | libucli.modified/pargv.c:136-233 | a line has at most one account of its words: option and value, flag, positional parameter, or the beginning and more of the rest |
| BindingLaws.WholeLine | libucli.modified/pargv.c:136-233 | the reference binds, word by word, exactly the entries of that account: an option the translation of the word behind it, a flag nothing, the j-th other word the j-th positional parameter, and "args" the words that are left, with quotes and blanks |
| BindingLaws.BoundIffExplained | libucli.modified/pargv.c:136-233 | so the reference refuses a line if and only if its words cannot be accounted for |
| BindingLaws.AcceptedExactly | libucli.modified/pargv.c:112-248 | a table is made if and only if the words have an account and every positional parameter is bound by it or has a default |
| BindingLaws.TableHolds | libucli.modified/pargv.c:112-248 | a name in the table has the value of the last word that binds it, else its last default, translated unless empty, else nothing |
| ArgumentBinding.BoundPositional | libucli.modified/pargv.c:136-233 | every positional parameter passed by the words is bound |
| ArgumentBinding.TableIsComplete | libucli.modified/pargv.c:112-248 | on success names are distinct, values are the last bound, and every positional parameter has an entry |
| ArgumentBinding.RoomForNext | libucli.modified/pargv.c:258-268 | every binding of a parameter finds room, and leaves names of parameters only |
| ArgumentBinding.OverflowsExactly | libucli.modified/pargv.c:258-268 | an accepted line binds more entries than there is room for, then one more, if and only if it reaches "args", whose name no parameter has, the parameters have different names and all have entries, and it has no more words than there are parameters |
| ArgumentBinding.BoundFits | libucli.modified/pargv.c:258-268 | the number of entries of a line, accepted or not, is within the room or one above it, exactly in that case |
| ArgumentBinding.TooManyEntries | libucli.modified/pargv.c:258-268 | a line that overflows |
| ShellRun.Shell.PushFile | libucli.modified/shell.c:1103-1128 | the file is on top and is the input stream |
| ShellRun.Shell.PopFile | libucli.modified/shell.c:1074-1101 | the top is closed; the one below becomes the input stream, and there is one if and only if the answer is true |
| ShellRun.Shell.Readline | libucli.modified/shell.c:1659-1700 | nothing is read while closing; otherwise the next line, and a script error for a line a script cannot parse |
| ShellRun.Shell.Execute | libucli.modified/shell.c:611-680 | files are pushed in order, closing is recorded, and a command that succeeds leads into its view with its view id |
| ShellRun.Shell.TakeTurn | libucli.modified/shell.c:1747-1805 | the loop body is one turn of the machine; what every kind of line does in a turn is `ShellLaws.FailedCommand` and the laws beside it |
| ShellRun.Shell.Start | libucli.modified/shell.c:1733-1742 | the given input is pushed and the startup command executed; the loop starts if that succeeds |
| ShellRun.TurnKeeps | libucli.modified/shell.c:1747-1805 | while the loop runs the stack is not empty, no file is lost or closed twice, and each turn uses up a line or a file |
| ShellRun.RunEnds | libucli.modified/shell.c:1747-1805 | every run ends |
| ShellRun.OnlyReadyRuns | libucli.modified/shell.c:1752-1793 | a command runs only from the top file, when the state is ready or an interactive stream made it so; otherwise the view stays |
| ShellRun.ScriptsUnwind | libucli.modified/shell.c:1794-1802 | after a script error each turn closes one file, reads nothing and runs nothing, until an interactive stream is on top or the run ends |
| ShellRun.TerminalRecovers | libucli.modified/shell.c:1752-1757 | on an interactive stream the error is forgotten |
| ShellRun.CloseEnds | libucli.modified/shell.c:447-458 | after the close builtin the loop ends in exactly as many turns as files on the stack, and nothing more runs |
| ShellLaws.FailedCommand | libucli.modified/shell.c:1774-1802 | a command that fails, having pushed any files: if the file then on top stops on errors and is no terminal, it closes and a script error is left; else nothing closes and the state is ready |
| ShellLaws.FailedAlone | libucli.modified/shell.c:1774-1802 | one that pushes nothing makes a script error if and only if the file it came from stops on errors and is no terminal |
| ShellLaws.GoodCommand | libucli.modified/shell.c:611-680 | one that succeeds leaves what it pushed on the stack and closes nothing; closing and the view are as it says |
| ShellLaws.OtherLines | libucli.modified/shell.c:1659-1700 | a blank line does nothing, a bad one is a script error but on a terminal, where it is passed over, and the end of a file closes it and leaves no error |
| ShellLaws.NoLineRead | libucli.modified/shell.c:1758-1802 | while closing or unwinding the top closes and nothing is read or run |
| ShellLaws.ScriptsClose | libucli.modified/shell.c:1794-1802 | after such a failure the n scripts on top close in n turns, in order, and no line is read meanwhile |
| ShellLaws.NoLaterLine | libucli.modified/shell.c:1747-1805 | over the whole run no later line of a script that stopped is run, unless its stream is open once more below or is pushed again |
| ShellLaws.StartedIs | libucli.modified/shell.c:1733-1742 | what the startup command leaves |
| ShellRun.Shell.Fini | libucli.modified/shell.c:2010-2014 | popping until nothing is left below closes all that is open |
| ShellRun.Thread | libucli.modified/shell.c:1705-1811 | from start to end: the run, with the view it ends in, is the machine's, and every file pushed has been closed exactly as often; after a failure in a script that stops on errors no later line of it runs (`ShellLaws.NoLaterLine`) |
| VariableExpansion.EscapeSpecialChars | libucli.modified/variable_expand.c:76-107 | the strcspn loop escapes every special character; an empty text gives null |
| VariableExpansion.UnescapeEscaped | libucli.modified/variable_expand.c:76-107 | a left-to-right unescape recovers the value, for any set of special characters |
| VariableExpansion.Retrieve | libucli.modified/variable_expand.c:109-156 | what is retrieved is the value found, escaped; which one that is, is `VariableLaws.VariableGives` |
| VariableExpansion.ExpandVariable | libucli.modified/variable_expand.c:192-221 | the words between colons are replaced where they have a value; nothing is left if none has |
| VariableExpansion.NextSegment | libucli.modified/variable_expand.c:158-248 | every segment moves on, contributes what the reference says, and null is exactly the end or a variable that is not terminated |
| VariableExpansion.Expand | libucli.modified/variable_expand.c:250-275 | the expansion is the recursive reference, whose variables are told by `VariableLaws.VariableGives` and `VariableLaws.WordsGive`; exactly when it is null |
| VariableExpansion.PlainStays | libucli.modified/variable_expand.c:229-242 | a text without "${" is unchanged |
| VariableExpansion.ExpandJoined | libucli.modified/variable_expand.c:250-275 | expansion distributes over joining texts at a boundary between segments |
| VariableExpansion.UnterminatedDropsTail | libucli.modified/variable_expand.c:177-186 | a variable that is not terminated drops itself and what follows, no more |
| VariableLaws.VariableGives | libucli.modified/variable_expand.c:109-156 | "${name}" gives the argument of that name whatever else has it, without one the variable of the view, then that of the environment, or nothing, escaped for the command or for the default characters; an empty value hides the later ones |
| VariableLaws.WordsGive | libucli.modified/variable_expand.c:192-221 | "${a:b}" gives each word that has a value its value and any other itself, without the colons, and nothing if and only if no word has a value |
| VariableLaws.OnlyOneEscapes | libucli.modified/variable_expand.c:76-107 | one text alone stands for a value with a backslash in front of exactly the special characters |

## Left out

- XmlLoad.ReadElement: the document is a parameter, not found through the parents; locations of nodes and errors are not recorded.
- XmlExact.SurvivesExactly: is not about documents with malformed UTF-8, with a "&#x" that has no ";" behind it in its string or a NUL in between, which reads on behind the string, or with CDATA sections, which are not parsed.
- XmlFile.LoadFile: takes the bytes of the file; opening, seeking and reading it are not modelled.
- XmlDom.Node.LinkEndChild: describes the tree below the node; `XmlEdits.EditAt` carries an edit up to the ancestors. Deleting gives objects up without destroying them, and the error a refused document records is not modelled.
- XmlDom.Node.InsertBeforeChild: requires, like the other edits, that a node whose parent is this one is linked among its children; texts have no children.
- XmlDom.Node.Clone: user data and locations are not copied in the model, and a copy of a document does not carry its error. The variants that take and give standard library strings, with which names could hold a NUL, are not modelled.
- XmlEdits.EditAll: an outside node that is linked is used by its path from then on, and a document is not put into a child's place, which `XmlDom.Node.ReplaceChild` covers.
- XmlLocation.ParsingData.Stamp: requires that the walk halts, which is exactly when the loop ends.
- LineEditor.Editor.KeyKill: requires that the cursor is within the buffer's string; behind its terminator what is stored is not determined.
- LineEditor.Editor.DeleteText: the copy reaches behind the terminator and may leave the array; it is cut off at the end of the array, and at least one bound must lie in the line, since otherwise the number of bytes to move is negative.
- LineEditor.Editor.Redisplay: width is unbounded, and a prompt starts an empty row.
- LineSession.Session: history entries and completions come with the events, and the history list and the functions that complete are not modelled; the list of matches is not drawn.
- LineInput.ReadInput: the input holds no NUL.
- ArgumentBinding.Init: requires that the line does not overflow, and a type for every parameter with a default that is not empty; validation by a type is a function parameter, and the help printed on an error is left out.
- CommandViews.FindNextInView: the tree is a sorted sequence and the splitting of a line into words a parameter; a command without a name is never completed.
- ShellRun.Thread: what lines, commands and callbacks do, and the view and expanded view id they lead to, is given by a list of outcomes; threads, cancellation and prompts are not modelled. Lines that a terminal rejects are passed over, and the help overlay state counts as ready.
- VariableExpansion.Retrieve: the regular expression that searches the view's variables is a function parameter.
- Comments, declarations, CDATA sections and unknown tags are not parsed (the parser's outcome says so), and stream input, `TiXmlHandle`, `TiXmlPrinter` and the numeric attribute queries are not modelled.
- Sizes are unbounded except in numeric references and in the completion of a word, where the wrap-around matters.
- Parameter completion, help texts, types and their ranges, and the building of views from XML.
- The duplicates of these files elsewhere in the repository.
