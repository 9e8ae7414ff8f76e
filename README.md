# XMLVisualizer, modelled in Dafny

XMLVisualizer is a desktop tool for XML documents that hold a small social network of users, their posts and their followers. It is built from a set of C++ command-line helpers and a Python front end. This project models the core of both as Dafny, together with the properties the two promise.

- **Consistency check and correction** (`XML_Consistency.cpp`, the stack helpers and main loop of `MAIN.cpp`, and their Python counterparts in `XML_GUI.py`):
  - Removes whitespace that does not sit next to a letter.
  - Matches every opening tag with its closing tag on a stack.
  - Answers whether the document is consistent.
  - Reports the positions of mismatched tags.
  - Rewrites the text to repair the mismatches.
- **Formatting and minifying** (`Formatting.cpp`, `Minifying.cpp`, and the Python `_formatting_function` and `_minifying_function` in `XML_GUI.py`):
  - The formatter puts every tag on its own line, indented two spaces per open element.
  - The minifier drops the whitespace between tags.
- **Conversion to JSON** (`xml2json.cpp`): a tree of elements is turned into nested JSON text, with quoting and the trimming of text content.
- **Huffman compression** (`compression.cpp`, and the module-level Python `compress` and `decompress` in `XML_GUI.py`):
  - Counts the characters.
  - Builds the tree with a min-heap.
  - Derives the prefix codes.
  - Encodes the text.
  - Packs the bits into bytes, and reverses all of this on decompression.
- **The social graph** (`Graph.cpp`):
  - Reads the users out of the document line by line, with flags for the `<posts>` and `<followers>` regions: their ids, names, posts and follower ids.
  - Adds the users as vertices of a fixed-capacity graph.
  - Sets an edge in the adjacency matrix from every follower to the user it follows, adding an unknown user for a follower id no user has.

Several repository files carry second copies of the same code. These are modelled once:
- `compression_main_test.cpp` repeats `compression.cpp`.
- `GUI.py` repeats the XML helpers of `XML_GUI.py`.
- `MAIN.cpp` repeats the JSON conversion, `trim` and `filter` of `xml2json.cpp`.

The table below cites the original of each copy. The copies' spans are:
- `compression_main_test.cpp`:
  - character counting, 158-175;
  - tree building, 63-93;
  - code generation, 97-113;
  - encoding and decoding, 116-148;
  - bit packing and unpacking, 224-270.
- `GUI.py`:
  - the consistency check, 182-205;
  - the mismatch locator, 223-240;
  - the corrector, 261-288;
  - the formatter, 330-355;
  - the minifier, 372-374.

## How the code is modelled

The model follows the style of each piece of code:
- Stateful helpers become classes whose methods say what they change. These are the tag stack of `XML_Consistency.cpp`, the string stack of `MAIN.cpp` and the `Graph` of `Graph.cpp`.
- Loops that build strings, vectors or maps become methods with loop invariants. Examples are the whitespace filter, the byte packer and the graph readers. Each method is proved against a recursive function of its inputs.
- Recursive and expression-level code becomes datatypes, functions and lemmas. Examples are the JSON printer, code generation and tree decoding.
- A C++ string search `find(c, i)` is modelled as a search that either finds nothing or finds the first match. Where the source stores the result in an `int`, `npos` reads back as `-1`.
- Integers are unbounded. The places where the source's fixed-width arithmetic matters are written out: the eight-bit byte in the bit packer, and the `size_t` wrap of a `find` that misses in the scanning loops (see "Left out").
- An operation the source cannot complete is an error value of the model. Examples are `back()` on an empty vector and `insert` at position `-1`.

## Model

| member | source | states |
|---|---|---|
| TagScan.ScanInOrder | XML_Consistency.cpp:102-127 | the tags the scanning loop meets lie at or after the start offset, inside the text, in document order and without overlapping |
| TagScan.ScanAtFinds | XML_Consistency.cpp:104-106 | every scanned tag starts at a `<` and ends at the first `>` that `find('>', i)` gives from it |
| TagScan.ScanReadBack | XML_Consistency.cpp:106-112 | every scanned tag is what is read between its `<` and `>`: a leading `/` marks a closing tag and is dropped from the name |
| TagScan.ScanStartsIncrease | XML_Consistency.cpp:102-127 | the offsets of the tags' `<` strictly increase, so no tag is met twice |
| TagScan.ScanAtTag | XML_Consistency.cpp:104-122 | at a `<` the loop reads one tag and resumes just past its `>` |
| TagScan.ScanAtText | XML_Consistency.cpp:125 | any other character is skipped |
| TagScan.TerminatedSplice | XML_Consistency.cpp:260-265 | replacing a stretch of a document in which every `<` has a later `>` by a text ending in `>` keeps that property |
| Nesting.BalancedIffNested | XML_Consistency.cpp:97-130 | the stack machine of `checkXMLConsistency` accepts a tag sequence exactly when it is properly nested (each closing tag closes the innermost open one and nothing stays open), in both directions |
| Nesting.NestedRunsThrough | XML_Consistency.cpp:110-120 | a properly nested stretch leaves the stack as it found it |
| Nesting.RunCloses | XML_Consistency.cpp:129 | a run that ends with an empty stack closes, innermost first, every name that was open at its start |
| XmlConsistency.Stack.constructor | XML_Consistency.cpp:31-34 | a new stack holds nothing |
| XmlConsistency.Stack.IsEmpty | XML_Consistency.cpp:42-45 | true exactly when no value is held |
| XmlConsistency.Stack.Len | XML_Consistency.cpp:46-49 | the counter equals the number of values held |
| XmlConsistency.Stack.Push | XML_Consistency.cpp:50-56 | the value goes on top; everything below is kept and the counter grows by one |
| XmlConsistency.Stack.Pop | XML_Consistency.cpp:58-71 | on a non-empty stack returns the top value and removes exactly it |
| XmlConsistency.Stack.Peak | XML_Consistency.cpp:73-79 | on a non-empty stack returns the top value and changes nothing |
| XmlConsistency.PushThenPop | XML_Consistency.cpp:50-71 | a push followed by a pop hands back the pushed value and restores the stack and its length |
| XmlConsistency.CheckXmlConsistency | XML_Consistency.cpp:97-130 | the answer is true exactly when the scanned tags are balanced, i.e. (by `BalancedIffNested`) properly nested |
| XmlConsistency.CheckTag | XML_Consistency.cpp:104-122 | one tag of the loop: it fails exactly where the stack machine fails (a closing tag on an empty stack or under a different name), otherwise the stack is updated as the machine's |
| XmlConsistency.RunHead | XML_Consistency.cpp:110-120 | an opening tag pushes its name; a closing tag pops a matching top and fails otherwise |
| XmlConsistency.LastIndexOf | XML_Consistency.cpp:156-165 | the highest index holding the name, with no later one holding it, or -1 when none does |
| XmlConsistency.SearchFromTop | XML_Consistency.cpp:155-165 | the backward search stops at the last open name equal to the closing tag's name, -1 when there is none |
| XmlConsistency.LocateCons | XML_Consistency.cpp:153-177 | a closing tag erases its last matching open entry from both vectors, or is recorded as mismatched; an opening tag pushes its name and offset |
| XmlConsistency.InsertSortedSpec | XML_Consistency.cpp:188 | inserting into an ascending sequence keeps it ascending and adds exactly the new element |
| XmlConsistency.SortAsc | XML_Consistency.cpp:188 | `std::sort` gives an ascending permutation of its input |
| XmlConsistency.FindMismatchedTags | XML_Consistency.cpp:133-191 | the result is the recorded closing-tag offsets together with the offsets still open at the end, ascending; they are strictly increasing and each is a `<` whose `>` comes before the next |
| XmlConsistency.LocateTag | XML_Consistency.cpp:144-179 | one tag of the loop leaves the two parallel vectors the same length and continues the walk as it would have gone on from the tag |
| XmlConsistency.LocateFromTags | XML_Consistency.cpp:153-187 | every reported offset is the offset of a tag the walk consumed or of an entry it started with, none reported twice |
| XmlConsistency.MismatchedAreTagStarts | XML_Consistency.cpp:133-191 | the reported offsets strictly increase and each is a `<` paired by `find` with a `>` before the next reported offset |
| XmlConsistency.MismatchedFromScan | XML_Consistency.cpp:133-191 | the reported offsets are distinct starts of scanned tags |
| XmlConsistency.ConsistentHasNoMismatch | XML_Consistency.cpp:97-191 | a document `checkXMLConsistency` accepts has no mismatched tags |
| XmlConsistency.RunLocatesNothing | XML_Consistency.cpp:110-177 | where the strict check succeeds on a run the tolerant walk reports nothing and leaves nothing open |
| XmlConsistency.CompressWhitespace | XML_Consistency.cpp:339-349 | the filter keeps exactly the characters KeepChar allows, in order (KeptUpTo): every non-space character, and a space only where a letter is next to it; it never lengthens the text |
| XmlCorrector.IndexRunCases | XML_Consistency.cpp:195-236 | on a tag sequence walked with a stack of open names and the "last tag opened" flag, it gives the first clash `m`, with every tag before `m` clash-free and its stack defined. A clash is a closing tag whose name is not the top of the stack (or the stack is empty), or an opening tag right after an opening tag. At a closing clash the answer is that tag's offset. At an opening clash the answer is that offset less the length of the name on top of the stack, which is the previous tag's name, and 2. The answer is -1 exactly when no tag clashes |
| XmlCorrector.CorrectIndexCases | XML_Consistency.cpp:195-236 | on the text from offset `i`, `correctindex` answers -1 if and only if no scanned tag clashes. Otherwise the tags up to the first clash are clash-free and the answer lies inside the text at or after `i` |
| XmlCorrector.CorrectIndexRange | XML_Consistency.cpp:195-236 | the answer is -1 or an offset inside the text at or after the start |
| XmlCorrector.CorrectIndex | XML_Consistency.cpp:195-236 | the loop with its vector of open names and its flag gives the answer of the scan function `CorrectIndexOf` |
| XmlCorrector.SnocRewrite | XML_Consistency.cpp:256-268 | one more rewrite past the last extends the rewritten prefix by the untouched stretch and the new text, and changes the length by the new text less the erased tag |
| XmlCorrector.CloseAfterOpen | XML_Consistency.cpp:252-275 | the `>` of the tag at a reported offset lies after its `<` and before the next reported offset |
| XmlCorrector.PlanAtLoneCloser | XML_Consistency.cpp:256-264 | a reported closing tag with nothing pending makes the source read `back()` of an empty vector |
| XmlCorrector.PlanAtCloser | XML_Consistency.cpp:256-268 | a reported closing tag is replaced by the closing tag of the last pending name, which is dropped with its offset |
| XmlCorrector.PlanAtOpener | XML_Consistency.cpp:270-275 | a reported opening tag pushes its content and its offset in the edited string |
| XmlCorrector.AtReported | XML_Consistency.cpp:254-259 | the adjusted offset `pos + offset` points in the edited string at the same tag as the reported offset in the original, with its `>` at the same distance |
| XmlCorrector.CloserKeeps | XML_Consistency.cpp:259-266 | erasing the closing tag and inserting the new one leaves the original with one more rewrite, and `offset` tracks the change in length |
| XmlCorrector.SpliceTerminated | XML_Consistency.cpp:260-265 | `erase` then `insert` at the same place is a splice, and keeps every `<` followed by a `>` |
| XmlCorrector.RewriteOne | XML_Consistency.cpp:252-277 | one turn of the first loop keeps the invariant (edited string = original with the rewrites, offset = their net change) and continues the reference plan, or fails exactly where it does |
| XmlCorrector.RewriteCloser | XML_Consistency.cpp:256-269 | the closing-tag branch of that turn, with the same contract |
| XmlCorrector.RewriteOpener | XML_Consistency.cpp:270-275 | the opening-tag branch of that turn, with the same contract |
| XmlCorrector.RewriteMismatched | XML_Consistency.cpp:245-277 | the first loop yields exactly the reference first phase, and its string keeps every `<` followed by a `>` |
| XmlCorrector.InsertKeepsTerminated | XML_Consistency.cpp:295 | inserting a closing tag keeps every `<` followed by a `>` |
| XmlCorrector.Sweep | XML_Consistency.cpp:286-303 | the sweep keeps the pending vectors of equal length, never adds entries, and the inserted length equals the growth of the string |
| XmlCorrector.SweepKeeps | XML_Consistency.cpp:290-292 | an entry whose `>` is followed by `<` stays pending |
| XmlCorrector.SweepErases | XML_Consistency.cpp:292-300 | otherwise its closing tag goes in front of the next `<` and the entry is erased, the index standing still |
| XmlCorrector.SweepFails | XML_Consistency.cpp:294-295 | with no later `<` the insert position is -1, which `insert` rejects |
| XmlCorrector.SweepEntry | XML_Consistency.cpp:288-301 | one turn of the `for` loop fails exactly where the sweep fails, and otherwise continues it with fewer entries to look at |
| XmlCorrector.SweepPending | XML_Consistency.cpp:285-303 | the `for` loop computes the reference sweep |
| XmlCorrector.CloseLast | XML_Consistency.cpp:305-312 | the tail of one round inserts the last pending closing tag where `correctindex` points and drops it; failure and result agree with the reference unwinding |
| XmlCorrector.CloseRemaining | XML_Consistency.cpp:278-313 | the `while` loop, with its flag that runs the sweep in the first round only, computes the reference second phase |
| XmlCorrector.CorrectMismatchedTags | XML_Consistency.cpp:243-315 | the whole corrector computes the reference `Correct`, including its two ways of failing |
| XmlCorrector.ConsistentUnchanged | XML_Consistency.cpp:243-315 | a consistent document comes back unchanged |
| XmlCorrectorFixed.ClosersLengthRemove | XML_Consistency.cpp:296-299 | erasing one pending entry takes away exactly the length of its closing tag |
| XmlCorrectorFixed.SweepFixed | XML_Consistency.cpp:286-303 | the repaired sweep keeps the vectors of equal length, and the string grows by exactly the closing tags of the erased entries |
| XmlCorrectorFixed.UnwindFixed | XML_Consistency.cpp:305-312 | the repaired unwinding puts exactly one closing tag per remaining entry into the string, and keeps every `<` followed by a `>` |
| XmlCorrectorFixed.Phase2Fixed | XML_Consistency.cpp:278-313 | the repaired second phase cannot fail and adds exactly one closing tag per entry the first phase left pending |
| XmlCorrectorFixed.SweepFixedTerminated | XML_Consistency.cpp:286-303 | the repaired sweep keeps every `<` followed by a `>` |
| XmlCorrectorFixed.Phase2FixedTerminated | XML_Consistency.cpp:278-313 | and so the whole repaired second phase |
| XmlCorrectorFixed.CorrectFixed | XML_Consistency.cpp:243-315 | the repaired corrector fails exactly when the first phase fails |
| XmlCorrectorFixed.SweepFixedKeeps | XML_Consistency.cpp:290-292 | an entry whose `>` is followed by `<` stays pending in the repaired sweep |
| XmlCorrectorFixed.SweepFixedErases | XML_Consistency.cpp:292-300 | otherwise the repaired sweep inserts before the next `<` and erases the entry |
| XmlCorrectorFixed.UnwindFixedStep | XML_Consistency.cpp:305-312 | one repaired step inserts the last closing tag at a position inside the string and drops the entry |
| XmlCorrectorFixed.Phase1OneOpener | XML_Consistency.cpp:252-275 | a single reported opening tag leaves the string as it is and becomes the only pending entry |
| XmlCorrectorFixed.ClosedAtEnd | XML_Consistency.cpp:294-295 | on `<a>x` the source inserts at offset -1 and fails; the repaired corrector gives the balanced `<a>x</a>` |
| XmlCorrectorFixed.ClosedAtEndOfDocument | XML_Consistency.cpp:305-308 | on `<a><b></b>` `correctindex` answers -1 and the source inserts there and fails; the repaired corrector gives the balanced `<a><b></b></a>` |
| XmlCorrectorFixed.PlanOpenerThenCloser | XML_Consistency.cpp:252-277 | a reported opening tag followed by a reported closing tag of another name: the closing tag is rewritten to close the opening one and nothing stays pending |
| XmlCorrectorFixed.Phase1OpenerThenCloser | XML_Consistency.cpp:252-277 | the same scenario on the string: the wrong closing tag is replaced in place |
| XmlCorrectorFixed.MismatchedWrongCloser | XML_Consistency.cpp:133-191 | `findMismatchedTags("<a>text</b>")` reports both tags, `[0, 7]` |
| XmlCorrectorFixed.MismatchedBook | XML_Consistency.cpp:133-191 | `findMismatchedTags("<book><title>Dune</title><author>Herbert</book>")` reports only `<author>`, `[25]`: `</book>` removes the pending `<book>` from the middle of the vectors |
| XmlCorrectorFixed.MismatchedNoneLeft | XML_Consistency.cpp:133-191 | `findMismatchedTags("<a><b>x</a>")` reports only the unclosed `<b>` at 3 |
| CorrectorAgreement.SweepAgrees | XML_Consistency.cpp:286-303 | where the source's sweep succeeds, the repaired sweep gives the same string, entries and length |
| CorrectorAgreement.UnwindAgrees | XML_Consistency.cpp:305-312 | where the source's unwinding succeeds, the repaired one gives the same string |
| CorrectorAgreement.CorrectAgrees | XML_Consistency.cpp:243-315 | wherever `correctMismatchedTags` succeeds, the repaired corrector returns the same string |
| CorrectorAgreement.NoneLeftAfterSweep | XML_Consistency.cpp:305 | on `<a><b>x</a>` the sweep closes `<b>` and leaves nothing pending, so the source reads `back()` of an empty vector; the repaired corrector gives the balanced `<a><b>x</b></a>` |
| CorrectorAgreement.WrongCloserRewritten | XML_Consistency.cpp:256-268 | on `<a>text</b>` both correctors replace `</b>` by `</a>` |
| MainCheck.StringStack.constructor | MAIN.cpp:27-29 | a new stack holds nothing |
| MainCheck.StringStack.IsEmpty | MAIN.cpp:36-38 | true exactly when nothing is held |
| MainCheck.StringStack.Push | MAIN.cpp:40-44 | the value goes on top of what was there |
| MainCheck.StringStack.Pop | MAIN.cpp:46-55 | on an empty stack gives the empty string and changes nothing; otherwise returns and removes the top |
| MainCheck.StringStack.Peek | MAIN.cpp:57-62 | the top value, or the empty string on an empty stack |
| MainCheck.PushThenPopString | MAIN.cpp:40-55 | a push followed by a pop hands back the pushed value and restores the stack |
| MainCheck.CollectName | MAIN.cpp:76-79 | the collected name is the text from the start up to the next `>`, or to the end when there is none |
| MainCheck.CheckXmlConsistencyMain | MAIN.cpp:66-102 | the answer is the stack machine's verdict on the tags as this check reads them, empty opening names not pushed |
| MainCheck.MainTag | MAIN.cpp:73-95 | one tag moves the loop forward; when it is fine the run from after it equals the run from it, otherwise the whole run fails |
| MainCheck.MainOpener | MAIN.cpp:73-83 | an opening tag's name, when not empty, is pushed, and the run from past its `>` equals the run from it |
| MainCheck.MainCloser | MAIN.cpp:84-95 | a closing tag must equal the top, which is popped; on an empty stack or a different top the run fails |
| MainCheck.MainTokensOfTerminated | MAIN.cpp:66-102 | on a text whose every `<` has a later `>`, this check reads the same tags as the XML_Consistency.cpp scanner less the empty openers `<>` |
| MainCheck.DropNoEmptyOpeners | MAIN.cpp:81-82 | a tag sequence without empty openers is left as it is |
| MainCheck.AcceptsCutCloser | MAIN.cpp:87-95 | the consistency check accepts `<a></a`, whose closing tag the end of the text cuts short |
| MainCheck.RejectsCutOpener | MAIN.cpp:76-83 | it rejects `<a`, an opening tag cut short, which stays open |
| XmlToJson.RenderJson | xml2json.cpp:15-30 | the loop with one recursive call per child builds exactly the rendering that `ToJsonShape` and `ChildLinesJoin` describe |
| XmlToJson.ToJsonShape | xml2json.cpp:15-30 | a rendering starts with the `"tag": ` key (none for an empty tag); a leaf continues with its quoted value, a parent ends with its own indentation and `}` |
| XmlToJson.ChildLinesJoin | xml2json.cpp:20-24 | the children's renderings come out in order, separated by `,` plus a line break, with no comma after the last |
| XmlToJson.ToJsonParent | xml2json.cpp:18-25 | a parent renders as its key, `{`, its children's lines at two more blanks, then its indentation and `}` |
| XmlToJson.ValueDropped | xml2json.cpp:18-28 | a node with children renders the same whatever text value it holds |
| XmlToJson.Convert | xml2json.cpp:36-70 | a conversion that succeeds is wrapped in `{` plus a line break and a line break plus `}` |
| XmlToJson.ConvertToJson | xml2json.cpp:36-70 | the character loop, with the node stack as a sequence, gives the conversion `Convert` defines, failing exactly where `top()` would meet an empty stack |
| XmlToJson.FeedThen | xml2json.cpp:42-68 | feeding two pieces of text one after the other is feeding their concatenation |
| XmlToJson.FeedFailed | xml2json.cpp:53-55 | once a closing `>` has met an empty stack, no further text recovers |
| XmlToJson.FeedName | xml2json.cpp:62-64 | inside a tag, characters other than `/`, `<` and `>` extend the tag name |
| XmlToJson.FeedText | xml2json.cpp:65-66 | outside a tag, characters other than `<` and `>` extend the pending text |
| XmlToJson.FeedOpen | xml2json.cpp:43-61 | an opening tag `<name>` pushes a fresh node named `name` |
| XmlToJson.FeedClose | xml2json.cpp:51-61 | `/name>` pops the top node and attaches it to the node below, or makes it the root |
| XmlToJson.LeafUpToClose | xml2json.cpp:43-66 | a leaf's opening tag, trimmed text and the next `<` leave that leaf, with its value, on top |
| XmlToJson.ParentUpToClose | xml2json.cpp:43-66 | a parent's opening tag and its children's documents leave that parent, with all its children, on top |
| XmlToJson.ParseTree | xml2json.cpp:42-68 | feeding the document that spells out a well-formed tree attaches exactly that tree |
| XmlToJson.ParseChildren | xml2json.cpp:53-57 | the documents of the first `k` children, with their parent on top, become the parent's children in order |
| XmlToJson.ConvertSerialized | xml2json.cpp:36-70 | converting the document of a well-formed tree renders exactly that tree: the builder loses and invents nothing |
| XmlToJson.CloserFirstFails | xml2json.cpp:53-54 | `</a>` has no open node when its `>` arrives, the case where the C++ calls `top()` on an empty stack |
| XmlToJson.TrimInPlace | xml2json.cpp:79-84 | the two index loops and the final `substr` compute `Trim` |
| XmlToJson.TrimSlice | xml2json.cpp:79-84 | `trim` gives a contiguous piece of its input, and only whitespace lies before and after it |
| XmlToJson.TrimEdges | xml2json.cpp:79-84 | what `trim` leaves is empty or has no whitespace at either end |
| XmlToJson.TrimIdempotent | xml2json.cpp:79-84 | trimming twice is trimming once |
| XmlToJson.TrimKeepsNonSpace | xml2json.cpp:79-84 | `trim` keeps every non-whitespace character of its input, in order |
| XmlToJson.StripWhitespace | xml2json.cpp:100-107 | the filter of `readXMLFile` leaves the input's non-whitespace characters, in order |
| XmlToJson.NonSpaceCount | xml2json.cpp:100-107 | the filter keeps each non-whitespace character as often as it occurs and no whitespace at all |
| Formatting.FormattingFunction | Formatting.cpp:6-78 | the `for` loop over the input and the final write-out compute `Format`, the run of `Step` over the characters followed by a flush |
| Formatting.FormatKeepsNonSpace | Formatting.cpp:6-78 | formatting loses, adds and reorders no non-whitespace character: it only adds indentation and line breaks and drops whitespace |
| Formatting.FormatEndsLine | Formatting.cpp:23-74 | the output is empty or ends with a line break |
| Formatting.LevelCountsOpenTags | Formatting.cpp:35-54 | the indentation level never goes negative and always equals the number of open tags on the stack |
| Formatting.RunGood | Formatting.cpp:13-67 | after every prefix the level counts the open tags, the output ends a line, and each non-whitespace character read is in the output or the pending piece, in order |
| Formatting.StepGood | Formatting.cpp:14-66 | one character keeps that state description |
| Formatting.FlushGood | Formatting.cpp:18-25 | writing out the pending piece keeps it and appends exactly one indented line |
| Formatting.LineNonSpace | Formatting.cpp:23 | a written line adds exactly the non-whitespace characters of its piece |
| Formatting.OutsideWhitespaceDropped | Formatting.cpp:61-65 | since the output always ends a line, whitespace outside a tag is always dropped |
| Formatting.NoExtraBreak | Formatting.cpp:20-73 | the extra line break before a written piece is never added |
| Formatting.SelfClosingOpens | Formatting.cpp:31-55 | the self-closing branch never runs: `<x/>` raises the level and pushes a name like an opening tag |
| Formatting.CloserDedents | Formatting.cpp:33-39 | a closing tag lowers the level and pops before it is written, so it lines up with its opener |
| Formatting.OpenerIndents | Formatting.cpp:40-55 | an opening tag without blanks is written at the current level, then its name is pushed and the level rises |
| Formatting.SelfClosingStays | Formatting.cpp:47-49 | with the self-closing test made before the `>` is appended, `<x/>` is written at the current level and leaves the level and the open tags alone |
| Formatting.StepFixedGood | Formatting.cpp:28-57 | the corrected step keeps the same state description as the original |
| Formatting.RunFixedGood | Formatting.cpp:13-67 | the corrected run keeps it after every prefix |
| Formatting.FormatFixedKeepsNonSpace | Formatting.cpp:6-78 | the corrected formatter loses and moves no non-whitespace character, ends its output with a line break and keeps the level equal to the open tags |
| Minifying.PopOpeners | Minifying.cpp:25-27 | the loop removes only a run of `<` from the top of the character stack and leaves no `<` on top |
| Minifying.MinifyingFunction | Minifying.cpp:6-45 | the loop, character stack included, computes `Minify`, which never consults the stack: the stack does not influence the output |
| Minifying.RunGood | Minifying.cpp:11-43 | after every prefix the output holds exactly the non-whitespace characters read so far, in order |
| Minifying.MinifyKeepsNonSpace | Minifying.cpp:6-45 | minifying loses, adds and reorders no non-whitespace character |
| Minifying.CloseThenBreak | Minifying.cpp:28-29 | every `>` of the output is immediately followed by a line break |
| Minifying.BreakBeforeTag | Minifying.cpp:14-21 | a `<` starts a new line exactly when the output so far is non-empty and does not already end one |
| Minifying.InsideTagCopied | Minifying.cpp:30-33 | inside a tag every character other than `<` and `>` is copied, whitespace included, and the tag stays open |
| Minifying.OutsideWhitespace | Minifying.cpp:34-42 | outside tags a whitespace character is dropped if and only if the output is non-empty and ends with a line break |
| Huffman.IndexOf | compression.cpp:92 | the index found holds the searched character, or -1 |
| Huffman.IndexOfFirst | compression.cpp:92 | `find_if` finds the first entry for the character, and finds one whenever one exists |
| Huffman.FindEntry | compression.cpp:92 | the search loop over the table gives `IndexOf` |
| Huffman.CountFrequencies | compression.cpp:90-95 | the counting loop builds the table `Frequencies` describes |
| Huffman.Frequencies | compression.cpp:90-95 | the table is no longer than the text, and every entry holds a character of the text with a count of one at least |
| Huffman.FrequenciesTable | compression.cpp:90-95 | the table has one entry per distinct input character, in order of first occurrence, each holding that character's count, the counts adding up to the input length |
| Huffman.TallyCounts | compression.cpp:93-94 | counting one more character raises exactly its entry, or adds an entry with count 1 |
| Huffman.TallyOrder | compression.cpp:94 | a new entry goes last, which keeps the table in order of first occurrence |
| Huffman.TallySum | compression.cpp:93-94 | each counted character adds one to the total |
| Base.ArgMinBy | compression.cpp:30-38 | `top()` of the min-heap is an element of least weight (the tree weight here, the same `__lt__` weight for `heapq` in `XML_GUI.py`); which of equal weights is left open |
| Huffman.PopMin | compression.cpp:38-39 | a pop takes a lightest tree out of the heap and takes out exactly its leaves and its weight |
| Huffman.PopTwo | compression.cpp:38-39 | a round pops a lightest tree and then a lightest tree of the rest, so the left child is no heavier than the right; the two trees and the rest make up the heap again |
| Huffman.TwoPops | compression.cpp:38-39 | two pops take two trees of the heap, the first no heavier than the second and than every tree, the second no heavier than any tree left |
| Huffman.PairMerged | compression.cpp:38-43 | pushing a `'\0'` node over a lightest tree and a lightest tree of the rest onto the rest is one lightest-pair merge |
| Huffman.GreedyRunSnoc | compression.cpp:37-44 | a run of lightest-pair merges followed by one more is still such a run, ending in the new heap |
| Huffman.MergeLightest | compression.cpp:37-44 | a round is one lightest-pair merge: the new `'\0'` node weighs the sum of a lightest tree of the heap (left) and a lightest tree of the rest (right), the heap shrinks by one, and the multiset of leaves and the total weight are kept |
| Huffman.NewNodeHeap | compression.cpp:40-43 | the new `'\0'` node carries the sum of both weights and the leaves of both children |
| Huffman.BuildHuffmanTree | compression.cpp:29-47 | the heaps it passes through start as one leaf per table entry, in order, and each is one lightest-pair merge after the one before, down to the root alone; the root is a merged tree whose leaves are exactly the table's entries and whose weight is their total count |
| Huffman.PushLeaves | compression.cpp:33-35 | the `for` loop pushes one leaf per table entry, in order, so the heap holds exactly the table's entries and their total count |
| Huffman.MergeAll | compression.cpp:37-44 | the `while` loop takes one lightest-pair merge per round from the initial heap down to one tree, which holds the heap's leaves and weight |
| Huffman.MergedLeafCount | compression.cpp:37-44 | a built tree is a leaf exactly when the table had one entry |
| Huffman.CodesReach | compression.cpp:50-55 | every generated code extends its prefix by a path that leads to a leaf holding that code's character |
| Huffman.CodesPrefixFree | compression.cpp:50-55 | no generated code is a prefix of another |
| Huffman.LeafHasCode | compression.cpp:50-55 | every leaf of a tree without `'\0'` leaves gets a code |
| Huffman.Codes | compression.cpp:50-55 | no code is generated for a `'\0'` node, and every code generated extends the prefix it was called with |
| Huffman.CodeOfEntry | compression.cpp:61-65 | the code `encode` uses for a character is the code of one entry for that character |
| Huffman.AppendCode | compression.cpp:61-66 | one character adds the bits of the first code for it, or nothing when it has no code |
| Huffman.EncodeData | compression.cpp:58-69 | `encode` concatenates the bits of each character's code in input order |
| Huffman.Encode | compression.cpp:58-69 | a text none of whose characters has a non-empty code encodes to no bits, and one all of whose characters have a non-empty code encodes to at least as many bits as characters |
| Huffman.DecodeData | compression.cpp:72-83 | the loop, with `None` for a null dereference, gives `DecodeFrom` from the root |
| Huffman.DecodeFrom | compression.cpp:72-83 | a decoding that meets no null pointer emits at most one character per bit, and never `'\0'` |
| Huffman.WalkToLeaf | compression.cpp:75-80 | the bits of a path to a leaf emit that leaf's character and return to the root |
| Huffman.DecodeEncode | compression.cpp:58-83 | on a tree with two leaves or more, decoding an encoding gives back the input's characters that have a code, in order |
| Huffman.BuiltTreeCodesAll | compression.cpp:29-55 | the tree built from an input's table, on an input without `'\0'`, gives a code to every input character |
| Huffman.CompressRoundTrip | compression.cpp:86-148 | for an input without `'\0'` and with two distinct characters or more, decoding the encoding with the tree built from its table gives the input back exactly |
| Huffman.DecodeTotal | compression.cpp:75-80 | from a merged node of such a tree, decoding never meets a null pointer |
| Huffman.DecodeExtends | compression.cpp:75-80 | bits appended at the end can only append characters to what was decoded |
| BitPack.ValueBound | compression.cpp:119 | a run of `n` bits spells a number below `2^n` |
| BitPack.ValueZeros | compression.cpp:122 | shifting left by `n` appends `n` zero bits |
| BitPack.FitsByte | compression.cpp:116-121 | at most eight bits fit an `unsigned char` |
| BitPack.ValueBitAt | compression.cpp:144 | `(x >> i) & 1` of a run's value is the run's `i`-th bit from the end |
| BitPack.ByteBitsOfValue | compression.cpp:144 | reading a written byte from bit 7 down to bit 0 gives back the eight bits it was made of |
| BitPack.SignedShr | compression.cpp:142-144 | shifting the byte as a signed `char` picks the same low bits as shifting the unsigned byte |
| BitPack.SignedBit | compression.cpp:142-144 | every bit read from a byte stored as a signed `char` is that byte's bit |
| BitPack.PadLength | compression.cpp:122 | the padding is under eight bits and fills the last byte exactly |
| BitPack.UnpackPack | compression.cpp:116-145 | reading back the packed bytes gives the bits followed by the zero padding of the last byte, and packing takes one byte per started group of eight |
| BitPack.PackChunk | compression.cpp:118-122 | packing whole bytes and then a run of at most eight bits adds exactly that run's byte |
| BitPack.UChar | compression.cpp:116-119 | the conversion to `unsigned char` leaves any value below 256 unchanged |
| BitPack.ShiftInBit | compression.cpp:119 | `byte = (byte << 1) \| bit` on a byte holding fewer than eight bits appends the bit |
| BitPack.LastByte | compression.cpp:122 | the last, partial, run shifted by `8 - bitCount` is that run filled up with zeros |
| BitPack.PackBits | compression.cpp:116-122 | the packing loop and the final partial byte write `Pack` of the bits |
| BitPack.AddBit | compression.cpp:118-121 | one turn of the loop keeps "full bytes written, the rest held in `byte`", writing a byte after eight bits |
| BitPack.FlushByte | compression.cpp:122 | writing the partial byte, when there is one, completes `Pack` |
| BitPack.FullRun | compression.cpp:120 | eight more bits make exactly one more byte |
| BitPack.UnpackBytes | compression.cpp:141-145 | the reading loop spells out each byte from bit 7 down, giving `Unpack` |
| Compression.DecompressedStartsWithInput | compression.cpp:86-150 | for an input without `'\0'` and with two distinct characters or more, what `decompress` writes starts with the input |
| Compression.Decompressed | compression.cpp:141-148 | what `decompress` writes, when decoding meets no null pointer, holds no `'\0'` and has no more characters than the bits read back |
| Compression.AabTreeUnique | compression.cpp:29-47 | for `"aab"`, every tree the merging can build is the one with `b` on the left and `a` on the right |
| Compression.AabBits | compression.cpp:50-69 | `"aab"` encodes to the three bits `1 1 0` |
| Compression.AabUnpacked | compression.cpp:116-145 | those three bits come back from the file as one byte: `1 1 0` and five zero bits of padding |
| Compression.AabZeros | compression.cpp:75-80 | under that tree, zero bits each decode to `b` |
| Compression.PaddingDecodedAsData | compression.cpp:122-148 | `"aab"` comes back as `"aabbbbbb"`: the padding bits are decoded as five more characters |
| Compression.DecompressCounted | compression.cpp:126-150 | the corrected decompression, told how many bits were encoded, decodes only those |
| Compression.CountedRoundTrip | compression.cpp:86-150 | with the bit count stored, every input without `'\0'` and with two distinct characters or more comes back exactly |
| Compression.SingleSymbolLost | compression.cpp:46-69 | a non-empty text of one distinct character gets the empty code, encodes to no bits and comes back empty |
| Compression.OneEntry | compression.cpp:29-47 | a one-entry table builds a lone leaf holding the text's only character |
| Compression.EncodeOneCode | compression.cpp:58-69 | with the one-bit code `0`, such a text encodes to one zero bit per character |
| Compression.FixedRoundTrip | compression.cpp:50-83 | with a one-bit code for a lone leaf, every non-empty input without `'\0'` comes back, however many distinct characters it has |
| SocialGraph.IdIndex | Graph.cpp:79-86 | the index found holds a user with the id, or is -1 |
| SocialGraph.IdIndexFirst | Graph.cpp:79-86 | `indexOf` finds the first user with the id, comparing ids only, and -1 exactly when no user has it |
| SocialGraph.IdIndexAppend | Graph.cpp:52-86 | adding users never moves an index already found; an id not found before is found among the new users |
| SocialGraph.Capped | Graph.cpp:52-60 | at most `n` users are kept, the first ones in order, all of them when they fit |
| SocialGraph.CappedAppend | Graph.cpp:54-58 | a user added to a full graph is dropped, otherwise appended |
| SocialGraph.AddedAppend | Graph.cpp:185-190 | the users added for follower ids are unknown users whose ids no earlier user has |
| SocialGraph.CellOfGrow | Graph.cpp:52-86 | a cell linking a follower to a user keeps doing so as users are appended, since appending moves no first index |
| SocialGraph.FollowCellGrow | Graph.cpp:173-176 | a cell linking a follower to one of the first users keeps doing so when more users are appended and more of them counted |
| SocialGraph.SearchFrom | Graph.cpp:107-161 | `find` returns a position where the pattern occurs, or `npos` |
| SocialGraph.SearchFirst | Graph.cpp:107-161 | `find` returns the first occurrence at or after the start, and `npos` only when there is none |
| SocialGraph.HasOccurs | Graph.cpp:107-161 | `find(pat) != npos` exactly when the pattern occurs in the line |
| SocialGraph.OpenUser | Graph.cpp:107-112 | `<user>` changes only the posts, the followers and the wait for an id |
| SocialGraph.TakeId | Graph.cpp:114-122 | the id rule changes only the id and the wait for it |
| SocialGraph.TakeName | Graph.cpp:124-127 | a `<name>` line changes only the name |
| SocialGraph.TakePosts | Graph.cpp:129-143 | the posts flag is set by `<posts>` and cleared by `</posts>`, the clearing winning, and nothing outside the posts changes |
| SocialGraph.TakeFollowers | Graph.cpp:145-159 | the followers flag is set by `<followers>` and cleared by `</followers>`, and nothing outside the follower ids changes |
| SocialGraph.CloseUser | Graph.cpp:161-165 | `</user>` appends exactly one record and keeps the rest of the state |
| SocialGraph.ReadLine | Graph.cpp:103-166 | a line extends the completed records, by one exactly when it contains `</user>` |
| SocialGraph.ReadUsersCount | Graph.cpp:103-166 | a record is completed on exactly the lines containing `</user>` |
| SocialGraph.ReadUsersGrow | Graph.cpp:103-166 | records completed are never changed or dropped by later lines |
| SocialGraph.UserLineResets | Graph.cpp:107-112 | a `<user>` line starts afresh: the previous record's posts and followers do not carry over |
| SocialGraph.CollectedOnlyInside | Graph.cpp:114-154 | outside a `<posts>` or `<followers>` region no post or follower id is collected, and once the id is read no later `<id>` replaces it before the next `<user>` |
| SocialGraph.FlagsStep | Graph.cpp:129-159 | a line changes a flag only through its opening and closing tags, the closing one winning |
| SocialGraph.FlagsTrackRegions | Graph.cpp:129-159 | the posts flag is on exactly inside an open `<posts>` region, the followers flag exactly inside an open `<followers>` region |
| SocialGraph.ScanLine | Graph.cpp:107-159 | the loop body up to `</user>` is the composition of the six line rules |
| SocialGraph.ScanHead | Graph.cpp:107-127 | the `<user>`, `<id>` and `<name>` rules |
| SocialGraph.ScanPosts | Graph.cpp:129-143 | the rules of the posts region |
| SocialGraph.ScanFollowers | Graph.cpp:145-159 | the rules of the followers region |
| SocialGraph.Graph.constructor | Graph.cpp:24-40 | a new graph has no user, an all-zero matrix and no mark |
| SocialGraph.Graph.AddVertex | Graph.cpp:52-60 | the user is appended while there is room; a full graph is left as it is |
| SocialGraph.Graph.IndexOf | Graph.cpp:79-86 | the search loop gives `IdIndex` of the users added so far |
| SocialGraph.Graph.AddEdge | Graph.cpp:62-73 | only the cell between the two ids' first vertices changes, and nothing when either id is missing |
| SocialGraph.Graph.ClearMarks | Graph.cpp:74-77 | the users' marks are reset and the marks beyond them kept |
| SocialGraph.Graph.LinkFollower | Graph.cpp:176-191 | the follower's edge to the user is set, the follower being added first as an unknown user when no user has its id |
| SocialGraph.Graph.LinkFollowerAt | Graph.cpp:176-191 | one round of the inner loop links the follower id, keeps every link in place and every unknown user added so far, and changes only a cell linking a follower of the current user to it |
| SocialGraph.Graph.LinkFollowers | Graph.cpp:175-192 | every follower id of one user is linked to it, every link already in place is kept, and every cell changed links one of that user's followers to it |
| SocialGraph.Graph.AddEdgesBetweenUsers | Graph.cpp:171-194 | every follower id of every user, including users added on the way, is linked; users are only appended, each an unknown user for a follower id no earlier user had; every cell changed links a follower to one of the users |
| SocialGraph.Graph.ReadUsers | Graph.cpp:103-166 | every completed record is added as a vertex, in order, as far as there is room |
| SocialGraph.Graph.ParseXML | Graph.cpp:88-169 | nothing changes when the file does not open; otherwise the records are added as far as there is room, then unknown followers, every follower link is in place, and every cell changed links a follower to a user |
| PyXml.PyFind | XML_GUI.py:280-322 | `str.find` returns a position at or after the start holding the character, or -1 |
| PyXml.PySlice | XML_GUI.py:284-323 | `s[a:b]` is the plain slice for in-range bounds, drops the last character for `b == -1`, and is never longer than `s` |
| PyXml.PyIndex | XML_GUI.py:278-320 | `s[k]` succeeds exactly for `-len(s) <= k < len(s)`, and otherwise raises `IndexError` |
| PyXml.CheckXmlConsistency | XML_GUI.py:273-296 | the `while` loop with its list stack computes `CheckFrom`, raising `IndexError` where `xml_content[i + 1]` is out of range |
| PyXml.CheckFrom | XML_GUI.py:276-296 | the walk raises `IndexError` only on a text that ends with `<` |
| PyXml.TagAsScanned | XML_GUI.py:277-284 | at a terminated `<`, the slice the Python takes is the name the C++ scanner reads |
| PyXml.CheckAgreesWithRun | XML_GUI.py:273-296 | on a text whose every `<` has a later `>`, the Python check is the strict stack discipline over the scanner's tags |
| PyXml.UnterminatedFails | XML_GUI.py:280-283 | a `<` with no later `>` makes the consistency check fail once the loop reaches it |
| PyXml.CheckIffNested | XML_GUI.py:273-296 | the consistency check returns True exactly on a text whose every `<` has a later `>` and whose tags nest properly |
| PyXml.FindMismatchedTags | XML_GUI.py:314-331 | the `for` loop with its two lists computes `Mismatched` |
| PyXml.Mismatched | XML_GUI.py:314-331 | the locator reports at most one offset per character of the text, each an offset of the text |
| PyXml.FindUpToBounds | XML_GUI.py:318-326 | after `n` iterations at most `n` offsets were reported, each below `n` |
| PyXml.MismatchedErrorIff | XML_GUI.py:318-320 | the locator raises `IndexError` exactly when the text ends with `<` |
| PyXml.FindAtReport | XML_GUI.py:324-328 | an offset is only reported at a `</` whose tag does not match, and reporting leaves the stack alone |
| PyXml.MismatchedAreClosers | XML_GUI.py:314-331 | every offset reported is the `<` of a closing tag, and the offsets are strictly increasing |
| PyXml.FindAtTag | XML_GUI.py:319-330 | at a terminated `<`, one iteration is the locator's step for the scanned tag |
| PyXml.StepOverTag | XML_GUI.py:318-330 | with no `<` inside a tag, the offsets from a tag's `<` to its `>` take only that tag's step |
| PyXml.FindAgreesWithScan | XML_GUI.py:314-331 | on such texts the locator's lists evolve tag by tag over the scanner's tags |
| PyXml.LocateExtends | XML_GUI.py:326 | locating only appends to the mismatch list |
| PyXml.LocateAgreesWithRun | XML_GUI.py:286-330 | the strict run succeeds exactly when locating reports nothing new, and both end with the same stack |
| PyXml.CheckIffNothingReported | XML_GUI.py:273-331 | on a terminated text without `<` inside tags, the consistency check returns True exactly when the locator reports nothing and its stack ends empty |
| PyFormat.PyNonSpaceAppend | XML_GUI.py:429-446 | the non-whitespace characters of a concatenation are those of its parts, in order |
| PyFormat.FirstSolidSpec | XML_GUI.py:430 | the Python `strip` starts at the first character that is not whitespace, with only whitespace before it |
| PyFormat.EndSolidSpec | XML_GUI.py:430 | it ends just past the last character that is not whitespace, with only whitespace after it |
| PyFormat.StripIsStripped | XML_GUI.py:430-444 | `strip` leaves a text that is empty or starts and ends with a character that is not whitespace |
| PyFormat.StripBounds | XML_GUI.py:430-444 | `strip` leaves the middle part between the leading and trailing whitespace, or nothing on a blank text |
| PyFormat.StripKeepsNonSpace | XML_GUI.py:430-444 | `strip` keeps every character that is not whitespace |
| PyFormat.StripEmptyIff | XML_GUI.py:429-465 | `strip` leaves nothing exactly on a text of whitespace only |
| PyFormat.StripStripped | XML_GUI.py:465 | `strip` changes nothing on a text that is already stripped |
| PyFormat.StripFrom | XML_GUI.py:430 | every character `strip` leaves comes from its input |
| PyFormat.Strip | XML_GUI.py:430 | `strip` never makes a text longer |
| PyFormat.JoinNonSpace | XML_GUI.py:446 | joining with a whitespace separator keeps the same non-whitespace characters as plain concatenation |
| PyFormat.FormattingFunction | XML_GUI.py:421-446 | the `for` loop over the characters and the final join compute `Formatted` |
| PyFormat.Formatted | XML_GUI.py:446 | the joined text is empty exactly when no line was written |
| PyFormat.CloserStep | XML_GUI.py:433-436 | at `>`, a tag starting with `</` lowers the level first and is written at the lowered level, which it keeps |
| PyFormat.OpenerStep | XML_GUI.py:433-439 | at `>`, a tag neither starting with `</` nor ending with `/>` is written at the level and raises it by one |
| PyFormat.SelfClosingStep | XML_GUI.py:433-439 | at `>`, a tag ending with `/>` is written at the level and leaves it unchanged |
| PyFormat.TextStep | XML_GUI.py:428-431 | at `<`, the pending text is written at the level when it is not blank, the level is unchanged, and the next piece starts with `<` |
| PyFormat.Piece | XML_GUI.py:427-441 | the pending piece is a suffix of the text read |
| PyFormat.FormatRunState | XML_GUI.py:423-441 | after reading a text, the level is its number of opening tags less its number of closing tags, negative when closers outnumber openers; the piece pending is what follows its last `>`; the lines are each tag and non-blank text in order, each indented twice its depth |
| PyFormat.StepState | XML_GUI.py:427-441 | one character takes the state described for a text to the one described for the text one character longer |
| PyFormat.TagStepState | XML_GUI.py:432-439 | at `>`, the completed tag is written at the depth of the tags before it, one lower for a closing tag, and the depth moves as that tag says |
| PyFormat.DepthOnTag | XML_GUI.py:434-438 | a completed tag adds one to the depth when it opens an element, takes one away when it closes one, and otherwise leaves it |
| PyFormat.SnocUnfold | XML_GUI.py:428-441 | one more character resets the pending piece at `>`, starts it with `<` at `<`, and otherwise extends it, and adds the tag or the text it completes |
| PyFormat.FormatLinesSpec | XML_GUI.py:423-446 | the formatted lines are the tags and texts in the order read, each at its depth, followed by the text left at the end when it is not blank |
| PyFormat.UnmatchedCloser | XML_GUI.py:434-436 | a closing tag reached at level zero or below is written with no indentation, as `" " * n` is empty for negative `n` |
| PyFormat.ClosingAt | XML_GUI.py:432-439 | a stripped closing tag completed at level zero or below is written as it is and takes the level below zero |
| PyFormat.IndentedLine | XML_GUI.py:430-444 | an indented piece that is not blank is a line: blanks, then a stripped, non-empty piece |
| PyFormat.TagNotBlank | XML_GUI.py:433-436 | a tag ends with `>` and so is always written |
| PyFormat.StepLines | XML_GUI.py:427-441 | every step writes lines only |
| PyFormat.StepKept | XML_GUI.py:427-441 | one character keeps every non-whitespace character read in the lines or the pending piece, in order |
| PyFormat.FormatRunGood | XML_GUI.py:427-441 | after every prefix the lines written are lines and no non-whitespace character has been lost or moved |
| PyFormat.FormatLinesAreLines | XML_GUI.py:421-446 | every output line is blanks followed by a non-empty piece with no whitespace at either end |
| PyFormat.FormatKeepsNonSpace | XML_GUI.py:421-446 | `_formatting_function` loses, adds and reorders no character that is not whitespace |
| PyFormat.BreakAt | XML_GUI.py:465 | the line break found is the first at or after the start, or there is none |
| PyFormat.SplitLines | XML_GUI.py:465 | `splitlines` yields no more lines than the text has characters, and at least one line for a non-empty text |
| PyFormat.SplitLinesLength | XML_GUI.py:465 | the lines of `splitlines` together are no longer than the text |
| PyFormat.NonBlankLength | XML_GUI.py:465 | stripping the lines and leaving out the blank ones makes their concatenation no longer |
| PyFormat.Minified | XML_GUI.py:463-465 | the minified text is never longer than its input |
| PyFormat.SplitLinesNoBreak | XML_GUI.py:465 | no line that `splitlines` yields holds a line break |
| PyFormat.SplitLinesNonSpace | XML_GUI.py:465 | `splitlines` drops only line breaks |
| PyFormat.NonBlankNonSpace | XML_GUI.py:465 | stripping each line and leaving out the blank ones keeps every non-whitespace character |
| PyFormat.MinifyKeepsNonSpace | XML_GUI.py:463-465 | `_minifying_function` loses, adds and reorders no character that is not whitespace |
| PyFormat.NonBlankLines | XML_GUI.py:465 | the lines kept are stripped, not empty and free of line breaks |
| PyFormat.ConcatPieces | XML_GUI.py:465 | stripped non-empty pieces without breaks join to a stripped text without breaks |
| PyFormat.MinifyShape | XML_GUI.py:463-465 | the minified text has no line break and no whitespace at either end |
| PyFormat.MinifyIdempotent | XML_GUI.py:463-465 | minifying twice gives the same text as minifying once |
| PyHuffman.LeafCharsOf | XML_GUI.py:22-35 | every leaf's character is among the tree's characters; a merged node has two leaves or more |
| PyHuffman.HeapPop | XML_GUI.py:28-29 | a pop takes a lightest tree out and takes out exactly its leaves and its weight |
| PyHuffman.PopTwo | XML_GUI.py:28-29 | a round pops a lightest tree, then a lightest tree of the rest, so the left child is no heavier than the right; the two trees and the rest make up the heap again |
| PyHuffman.TwoPops | XML_GUI.py:28-29 | two pops take two trees of the heap, the first no heavier than the second and than every tree, the second no heavier than any tree left |
| PyHuffman.PairMerged | XML_GUI.py:28-32 | pushing a merged node over a lightest tree and a lightest tree of the rest onto the rest is one lightest-pair merge |
| PyHuffman.GreedyRunSnoc | XML_GUI.py:27-32 | a run of lightest-pair merges followed by one more is still such a run, ending in the new heap |
| PyHuffman.MergeAll | XML_GUI.py:27-35 | the `while` loop takes one lightest-pair merge per round from the initial heap down to one tree, which holds the heap's leaves and weight |
| PyHuffman.MergeLightest | XML_GUI.py:27-33 | a round is one lightest-pair merge: the merged node weighs the sum of a lightest tree of the heap (left) and a lightest tree of the rest (right), the heap shrinks by one, and the multiset of leaves and the total weight are kept |
| PyHuffman.MergedHeap | XML_GUI.py:30-33 | the merged node carries both weights and both children's leaves |
| PyHuffman.InitialHeap | XML_GUI.py:24 | one leaf per map entry, in the map's order |
| PyHuffman.InitialHeapLeaves | XML_GUI.py:24 | the leaves of the initial heap are the map's entries and their weights add up to the map's total |
| PyHuffman.BuildHuffmanTree | XML_GUI.py:22-35 | an empty map raises `IndexError` at `heap[0]`; otherwise the heaps passed through start as one leaf per map entry and each is one lightest-pair merge after the one before, down to the root alone, whose leaves are exactly the map's entries and whose weight is their total |
| PyHuffman.CodesWalk | XML_GUI.py:38-49 | the characters mapped are the leaves' characters, and each code is the path to that character's leaf |
| PyHuffman.CodesPrefixFree | XML_GUI.py:38-49 | no character's code is a prefix of another's |
| PyHuffman.GenerateCodes | XML_GUI.py:38-49 | every code generated extends the `current_code` it was called with |
| PyHuffman.EncodeBinary | XML_GUI.py:67 | the encoded data is a string of `0` and `1` digits |
| PyHuffman.Encode | XML_GUI.py:67 | a text whose characters all have the code `""` encodes to nothing, and one whose characters all have a non-empty code encodes to at least one digit per character |
| PyHuffman.Padding | XML_GUI.py:78 | the padding is one to eight zeros, never none, and fills a whole byte |
| PyHuffman.BinValueBound | XML_GUI.py:83 | a group of `n` digits is a number below `2^n` |
| PyHuffman.PackBits | XML_GUI.py:82-84 | the loop writes the bit string cut into groups of eight as bytes |
| PyHuffman.Packed | XML_GUI.py:82-84 | the bit string is cut into one byte per group of eight digits, the last group possibly shorter |
| PyHuffman.Payload | XML_GUI.py:78-84 | what is written after the header is the padding byte, one to eight, then the padded bits as bytes, at least one of them |
| PyHuffman.Digits | XML_GUI.py:106 | the `08b` format gives eight binary digits |
| PyHuffman.UnpackBytes | XML_GUI.py:103-107 | the reading loop spells out each byte as eight digits |
| PyHuffman.Unpacked | XML_GUI.py:103-107 | every byte read gives eight digits |
| PyHuffman.ReadPayload | XML_GUI.py:102-110 | an empty file gives no bits; a padding of one or more within the bits read strips exactly that many, and a zero padding or one longer than the bits gives nothing, as `[:-0]` and over-long slices do |
| PyHuffman.DigitsOfValue | XML_GUI.py:83-106 | spelling out a byte's value gives back the digits it was made of |
| PyHuffman.UnpackPacked | XML_GUI.py:82-107 | whole bytes read back as written |
| PyHuffman.PayloadRoundTrip | XML_GUI.py:78-110 | the padding length is stored and stripped, so every bit string comes back exactly |
| PyHuffman.DecodeBits | XML_GUI.py:113-119 | the decoding loop gives `DecodeFrom` from the root, `None` where `current.char` meets `None` |
| PyHuffman.DecodeFrom | XML_GUI.py:113-119 | a decoding that never steps below a leaf emits at most one character per bit |
| PyHuffman.WalkDecode | XML_GUI.py:115-119 | following the path to a leaf emits its character and goes back to the root |
| PyHuffman.DecodeEncode | XML_GUI.py:67-119 | with a tree of two leaves or more, decoding the encoding of a text made of its characters gives the text back |
| PyHuffman.TextInTree | XML_GUI.py:58-63 | every character of the text is a leaf of the tree built from its frequency map |
| PyHuffman.PyRoundTrip | XML_GUI.py:52-122 | with two distinct characters or more, `decompress` writes exactly the text `compress` read |
| PyHuffman.SingleSymbolLost | XML_GUI.py:35-84 | a non-empty text of one distinct character gets the empty code, is written as padding eight and one zero byte, and comes back empty |
| PyHuffman.EmptyPayload | XML_GUI.py:78-110 | the empty bit string is written as padding eight and one zero byte and read back empty |
| PyHuffman.OneCode | XML_GUI.py:67 | a text of one character encodes to that many copies of its code |
| PyHuffman.FixedPyRoundTrip | XML_GUI.py:38-119 | with a one-bit code for a lone leaf, every non-empty text comes back, however many distinct characters it has |
| PyCorrector.AtSlash | XML_GUI.py:358-362 | at a reported offset followed by `/` the iteration takes the deletion branch |
| PyCorrector.DeleteBranchAt | XML_GUI.py:360-362 | the deletion keeps the text before the tag and after the `>` that `find` gives, and lowers the offset by the length cut |
| PyCorrector.ErrorStays | XML_GUI.py:357-371 | an exception ends the loop: the call raises the first error met |
| PyCorrector.DeleteClosing | XML_GUI.py:359-362 | the imperative form of `DeleteBranch` (specified by it, not a second definition): the closing-tag branch of the loop body, which cuts the tag up to the `>` that `find` gives and lowers the offset by the length cut |
| PyCorrector.InsertClosing | XML_GUI.py:363-371 | the imperative form of `InsertBranch` (specified by it, not a second definition), the opening-tag branch: `</name>` inserted before the next `<` after the tag, or at the end, and the offset raised by its length |
| PyCorrector.CorrectOne | XML_GUI.py:358-371 | the imperative form of `CorrectAt` (specified by it, not a second definition), one loop body: `IndexError` when `pos + 1` is out of range, otherwise the branch chosen by the character after `<` |
| PyCorrector.CorrectAt | XML_GUI.py:358-371 | an iteration raises `IndexError` exactly when `pos + 1`, shifted by the offset, is outside the text's index range |
| PyCorrector.CorrectUpTo | XML_GUI.py:357-371 | no error is raised before the loop has handled its first reported offset |
| PyCorrector.CorrectMismatchedTags | XML_GUI.py:352-379 | the locator and the `for` loop over its offsets compute `Corrected`; the `while tag_stack` loop is omitted as a no-op, since `tag_stack` is never appended to |
| PyCorrector.Corrected | XML_GUI.py:352-379 | an error of the locator is raised again, and a text with nothing reported is returned unchanged |
| PyCorrector.KeptLength | XML_GUI.py:361-362 | the kept text is as long as the text read so far less what was cut |
| PyCorrector.ShiftedView | XML_GUI.py:358-360 | after earlier cuts, the offset maps a reported input position onto the same character, and `find('>')` onto the input's search, shifted |
| PyCorrector.DeleteTag | XML_GUI.py:360-362 | at a reported closing tag with a `>`, the deletion cuts out exactly that tag |
| PyCorrector.DeleteUnterminated | XML_GUI.py:360-362 | at a reported closing tag with no `>`, `find` gives -1, and the text after the `<` is the whole text again: the deletion copies instead of cutting |
| PyCorrector.DeleteStep | XML_GUI.py:357-362 | an iteration at a terminated reported closing tag cuts that tag out and keeps the loop state's shape |
| PyCorrector.CutUpTo | XML_GUI.py:357-371 | with every reported tag terminated, the state after `k` offsets is the input with the first `k` reported tags cut out |
| PyCorrector.ReportsSpaced | XML_GUI.py:314-331 | without `<` inside tags, the reported offsets are closing tags that start after the end of the previous one |
| PyCorrector.CorrectedCutsReported | XML_GUI.py:352-379 | on a terminated text without `<` inside tags, the correction is the input with every reported closing tag cut out, its `>` included, and nothing else changed |
| PyCorrector.CorrectedOffset | XML_GUI.py:362 | the final offset is minus the total length cut, which is what the text's length lost |
| PyCorrector.UnterminatedReported | XML_GUI.py:320-326 | on `<b></a` the locator reports the `</a` at 3 |
| PyCorrector.UnterminatedCopied | XML_GUI.py:360-362 | the correction of `<b></a` gives `<b><b></a` instead of cutting the tag |
| PyCorrector.DeleteFixedAt | XML_GUI.py:360-362 | the corrected deletion cuts through the `>` or, when there is none, through the end of the text |
| PyCorrector.DeleteFixedTag | XML_GUI.py:360-362 | after earlier cuts, the corrected deletion cuts exactly the reported tag |
| PyCorrector.DeleteFixedStep | XML_GUI.py:357-362 | the corrected iteration keeps the loop state's shape, terminated tag or not |
| PyCorrector.CutUpToFixed | XML_GUI.py:357-371 | the corrected loop's state after `k` offsets is the input with the first `k` reported tags cut out |
| PyCorrector.CorrectedFixedCutsReported | XML_GUI.py:352-379 | with no `<` inside a tag and none at the very end, the corrected function returns the input with each reported closing tag cut out |
| PyCorrector.UnterminatedCut | XML_GUI.py:360-362 | the corrected function turns `<b></a` into `<b>` |

## Left out

- User interface: the tkinter, ttkbootstrap and PyQt code (`Graph_GUI.py`, `xml_editor_GUI.py`, the button handlers and the treeview helpers of `XML_GUI.py` and `GUI.py`). It is widget and subprocess plumbing with no logic of its own.
- Console output: `Graph::display` and every print. It is output only.
- File access: `readFile`, `writeFile`, the `ifstream` parts of `readXMLFile`, and the Python `open` calls. The model works on the text, the lines, the bits and the bytes that these produce or consume.
- Graph.ParseXML is modelled with the file given as a flag saying whether it opened and the list of its lines. The graph's capacity is a parameter.
- The binary header of the compressed file (compression.cpp:109-114,133-139). It writes `size_t` and `int` values with `reinterpret_cast`, and its layout is platform-dependent. The model assumes the decompressor rebuilds the same tree as the compressor, which is what the header is for.
- The Python header writes every symbol in UTF-8 but reads back one byte per symbol (XML_GUI.py:74 against XML_GUI.py:94). This only matters outside the one-byte range, and characters here are plain Dafny characters.
- `_convert_xml_to_json` in `XML_GUI.py` and `GUI.py`. It is a wrapper over Python's `xml.etree` and `json` modules, whose code is not part of this model.
- `xml_editor.cpp` and `test_cli_comp.cpp`. They are command-line dispatch and do not build as written (a two-argument `correctMismatchedTags` is called that does not exist). `main_Test_format.cpp` is an interactive driver only.
- Memory management: leaked `HuffmanNode`s and the `Graph` destructor. Trees are datatypes, and the graph's arrays are Dafny arrays.
- Huffman.BuildHuffmanTree and Huffman.MergeAll require a non-empty table. `compress` returns before building a tree for empty input (compression.cpp:88), and with an empty header table `minHeap.top()` on an empty `std::priority_queue` is undefined behaviour, which has no value to model.
- Huffman.BuildHuffmanTree and PyHuffman.BuildHuffmanTree do not fix the tie-breaking order of `std::priority_queue` and `heapq` between equal weights. Each round is stated as some lightest-pair merge (`LightestMerge`), with `ArgMinBy` returning one of the lightest trees, so the contracts hold whichever of equal weights the library pops first. The ghost run of heaps they return records the pair taken in each round.
- PyFormat.Strip: its own contract only bounds the length. What `strip` keeps and drops is stated by PyFormat.StripBounds, PyFormat.StripIsStripped and PyFormat.StripEmptyIff, because a stronger ensures on the function itself makes the formatter's proofs too costly.
- PyHuffman reuses Huffman.Frequencies for the counting loop of `compress`. A Python dict keeps keys in the order of first insertion, which is the order that function uses.
- XmlConsistency.CheckXmlConsistency, XmlConsistency.FindMismatchedTags, XmlCorrector.CorrectIndex, XmlCorrector.CorrectMismatchedTags and MainCheck.MainTokensOfTerminated require every `<` to have a later `>` (`Terminated`). On other text the missed `find` yields `npos`, which reads back as -1 in an `int`. The scan then restarts at offset 0 with a grown stack, and in general never ends. The model does not describe that run.
- PyXml.CheckAgreesWithRun, PyXml.FindAgreesWithScan, PyXml.CheckIffNothingReported, PyCorrector.CorrectedCutsReported and PyCorrector.CorrectedOffset are stated for terminated text. Some of them are also stated only when no `<` appears inside a tag (`NoLtInTags`). The Python functions themselves (PyXml.CheckXmlConsistency, PyXml.FindMismatchedTags, PyCorrector.CorrectMismatchedTags) are modelled on every input, the error paths included.
- XmlConsistency.Stack.Pop and XmlConsistency.Stack.Peak require a non-empty stack. The C++ reads an array slot below the bottom there; every caller tests `isEmpty` first.
- XmlConsistency.CompressWhitespace treats the missing neighbour before the first character as a non-letter. The C++ reads `content[-1]` at offset 0.
- The Python corrector's opening-tag branch is modelled as the code is written. The reported positions are only ever closing tags (PyXml.MismatchedAreClosers), so that branch never runs on the values that reach it.
- The Python corrector's final `while tag_stack` loop (XML_GUI.py:374-377) is omitted as a no-op: `tag_stack` starts empty and nothing is ever appended to it.
- XmlCorrector.CorrectMismatchedTags follows `correctMismatchedTags` as written, in two phases:
  - The first phase deletes each reported closing tag and writes the expected closer in its place. It also records each reported opening tag.
  - The second phase closes the recorded tags by the forward search and the `correctindex` probing, and it can fail (see Findings).
- `isspace` and `isalpha` are the C-locale character sets. Python's `str.isspace`, `strip` and `splitlines` are CPython's whitespace and line-break tables. No encoding is modelled: a character is a Dafny `char`, and a `char` in the C++ is taken to hold one.

## Findings

| source | as written | input that shows it | evidently intended | confidence | as-written member | corrected member |
|---|---|---|---|---|---|---|
| XML_Consistency.cpp:292-295 | when no `<` follows an open tag's content, `find('<')` gives `npos` and `insert` throws `out_of_range` | `<a>x` | the closing tag goes at the end of the text | not executed | XmlCorrectorFixed.ClosedAtEnd | XmlCorrectorFixed.CorrectFixed |
| XML_Consistency.cpp:306-308 | `correctindex` returns -1 when the search reaches the end, and `insert(-1, …)` throws | `<a><b></b>` | the last open tag is closed at the end of the text | not executed | XmlCorrectorFixed.ClosedAtEndOfDocument | XmlCorrectorFixed.UnwindFixed |
| XML_Consistency.cpp:282-305 | the forward sweep can empty `tagContent`, and `tagContent.back()` then reads an empty vector | `<a><b>x</a>` | the loop stops when nothing is left to close | not executed | CorrectorAgreement.NoneLeftAfterSweep | XmlCorrectorFixed.CorrectFixed |
| compression.cpp:122,143-148 | the zero bits that pad the last byte are decoded as more symbols | `aab` decompresses to `aabbbbbb` | decoding stops after the bits that were encoded | not executed | Compression.PaddingDecodedAsData | Compression.CountedRoundTrip |
| compression.cpp:50-55 | a tree with one leaf gives that character the empty code, so nothing is encoded | `aaa` decompresses to the empty text | a one-symbol text gets a one-bit code | not executed | Compression.SingleSymbolLost | Compression.FixedRoundTrip |
| XML_GUI.py:43-47,67 | a tree with one leaf gives that character the code `""`, so nothing is encoded | `aaa` decompresses to the empty text | a one-symbol text gets a one-bit code | not executed | PyHuffman.SingleSymbolLost | PyHuffman.FixedPyRoundTrip |
| XML_GUI.py:358-361 | an unterminated closing tag is cut with `find` giving -1, so the text is copied in front of itself | `<b></a` becomes `<b><b></a` | the unterminated tag is dropped or left alone | not executed | PyCorrector.UnterminatedCopied | PyCorrector.CorrectedFixedCutsReported |
| Formatting.cpp:31,47 | `>` is appended before the self-closing test, so `currentTag.back()=='/'` never holds and `<x/>` opens a level | `<x/><y/>` indents `<y/>` by two spaces | a self-closing tag leaves the level unchanged | not executed | Formatting.SelfClosingOpens | Formatting.SelfClosingStays |
