# A verified model of amongoc's core

This project models, in Dafny, the parts of amongoc on which the rest depends for its correctness, and
proves what they promise:

- **The BSON document engine.** A document is a length-prefixed tree inside one flat allocation
  (BSON Specification version 1.1, non-terminals `document`, `e_list` and `element`). A chain of nested
  mutators edits it in place: each hands a resize to its parent, the root may move the whole document, and on
  the way back every level rebases its pointer and rewrites its length header. The model has the bytes
  (`Bytes`, `Frames`), the tree and its encoding (`Document`), the reader on encoded trees (`Iteration`, `Reading`, `Values`)
  and on arbitrary bytes (`Recognition`), the allocation (`Storage`) and the mutators as heap objects (`Mutator`,
  `Sync`, `Tracking`, `Insertion`, `Ranges`, `Relabel`, `Undo`, `Nesting`, `Decimal`). The main results say that
  byte-level edits through a chain of any depth are edits of the tree at one path, that reading is walking the tree,
  and for exactly which values insert followed by read gives the value back and insert followed by erase the tree.
- **The document builder** (`Make`, `Refusals`, `Builder`): rule trees, the size they announce, the document they build through
  the mutators, the exact difference between the two sizes, and what is missing when memory is refused.
- **The declarative parser** (`Parse`): the one-pass, stateful `doc` parser against a specification that looks at
  each part alone.
- **Checked 64-bit arithmetic** (`Integer`): overflow predicates, sticky flags, saturation.
- **Concurrent and ownership protocols**: the race (`Race`) and join (`Join`) combinators and the connection pool
  (`ConnectionPool`) as step relations under every interleaving, with the code that takes each step as methods of
  a class; the intrusive listener list (`Listeners`) and the object pool (`ObjectPool`) as heap classes.
  `Collections` has the counting facts they share.

How the pieces fit: a method of a class is specified by a function of the old state (`Splice`, `Locked`,
`CheckedOut`, ...), and the lemmas are about those functions. `InSync(chain, d, fs, body)` says that the mutators in
`chain` stand at the documents nested by the frames `fs` around `body` in the document `d`;
`Tracks(chain, d, es, path)` says the same of the tree `es` and the path `path` to a document in it. Ghost
parameters of the methods name the tree; the executable parameters are those of the C functions.

Where the code does not do what its comments or the format say, the model follows the code, and lemmas state
exactly when the two agree, with an input where they do not:

- `_mlib_i64_sub_would_overflow` overlooks exactly the difference 2^63 (`SubPredicateMissesOneDifference`,
  `BlindSpotIsWrong`); an expression without flags is exact at every node exactly if it avoids that
  (`ExactIffAvoidsBlindSpot`).
- The reader measures a value by its specified length, whatever follows it, exactly when it is neither a dbpointer
  (four bytes too few) nor code with scope (eight too many) nor a regular expression with a NUL (its first two strings
  are counted) (`MeasuredAsSpecified`). Reading a dbpointer therefore stays inside its document exactly when four more
  bytes follow the validated ones (`DbPointerReadInsideIff`, `DbPointerReadsPastEnd`).
- What an insertion stores is measured by its whole length exactly when the value is neither a regular expression nor
  a dbpointer (`WrittenAsSpecified`), and exactly for those two kinds a walk no longer visits the elements
  (`InsertedWalk`). The value that is read back is the one inserted exactly when it is not an empty string (on which
  the process stops), not a null view (an empty document is stored), not a dbpointer whose collection name has a NUL
  (it is cut there) and not a regular expression with a NUL (`InsertedReadsBack`, `NulRegexChanges`); keys are cut at
  their first NUL.
- A regular expression is copied in full into a region sized up to its first NULs, with three bytes to spare: that is
  enough exactly when no more than three bytes follow them (`RegexFitsIff`, `NulRegexOverruns`). Otherwise the copy
  overwrites the elements that follow (`InsertValue`). `bson_insert_code_with_scope` always writes three bytes behind
  its region (`CodeScopeOverruns`).
- `bson_erase_one` takes the end of what it erases from `bson_next`. It halts exactly when that finds an error, and
  otherwise erases the bytes that the reader measures, which are the element exactly when it is measured whole
  (`EraseOne`). Erasing what was just inserted restores the tree if and only if the value is neither a regular
  expression nor a dbpointer (`InsertThenErase`); behind a regular expression without NULs it halts
  (`RegexNextErrant`).
- A negative length prefix stops the process (`AbortsIffNegativePrefix`, `NegativePrefixAborts`).
- Relabelling never advances its index: the new keys count up exactly when there is at most one of them
  (`RelabelCountsIffSingle`). The loop ends where the reader stops: with an error, as behind an inserted regular
  expression, it returns normally and every later element keeps its key (`RelabelAt`, `RegexStopsRelabelling`). If a key
  cannot be set it goes on with the past-the-end iterator.
- Erasing an empty range writes the header even when the document still uses the static bytes of all empty documents:
  it writes there exactly when the document is on them, which is only for the empty document (`EraseRange`,
  `SharedIsEmpty`). A refused first reservation clears those bytes too (`NewDocument`).
- `push_subdoc` and `push_array` do not report a refused insertion. The builder goes on with a null mutator: a document
  without elements is then just missing, and any element stops the process. The built tree is the tree of the rules
  exactly when no such insertion was refused (`Build`, `PartialDocCount`), as it is when the reservation covers the
  size; building `{"a": {}}` gives `{}` exactly when its one allocation is refused (`BuildOneEmpty`).
- `_bson_find` never returns an errant iterator, although `bson_view::find` is documented to (`Find`).
- `byte_size` of a built document covers neither header and trailer nor the five bytes of each nested document,
  although a comment says so (`BuilderSizeLaw`); `emplace_back` of an end-of-document value always throws, although
  a comment calls it a no-op (`EmplaceBack`).
- `doc` of required fields does not accept what `all` of them accepts: for given keys the two agree for every choice of
  rules exactly when some key is absent or every element with one of the keys equals the first such element
  (`DocIsAllIff`, `DuplicateKeyDiffers`).
- Connection ids repeat after 2^32 connections (`IdsRepeatIff`, `IdRepeats`). A held connection on which nothing failed
  is destroyed by exactly one action, assigning over the member that holds it (`UnmarkedLostIff`, `AssignmentLoses`).

## Model

| member | source | states |
|---|---|---|
| Bytes.ReadWriteU32 | include/bson/detail/mem.h:19-75 | reading what was written little-endian gives the number modulo 2^32 |
| Bytes.WriteReadU32 | include/bson/detail/mem.h:19-75 | writing what was read gives back the same four bytes |
| Bytes.ReadWriteU64 | include/bson/detail/mem.h:39-97 | reading what was written as two words gives the number modulo 2^64 |
| Bytes.WriteU32le | include/bson/detail/mem.h:19-29 | overwrites exactly four bytes and returns the position behind them |
| Bytes.WriteU64le | include/bson/detail/mem.h:39-48 | overwrites exactly eight bytes |
| Bytes.Memcpy | include/bson/detail/mem.h:108-118 | overwrites exactly the destination range with the source |
| Bytes.Memmove | include/bson/detail/mem.h:121-138 | the destination range gets the old bytes of the source range, for every overlap; nothing else changes |
| Bytes.Memset | include/bson/detail/mem.h:141-150 | fills exactly the range |
| Frames.SpliceLaw | include/bson/mut.h:93-186 | at any nesting depth, splicing the bytes and then adding the size difference to every header gives the same frames around the spliced innermost body |
| Frames.PatchInBody | include/bson/mut.h:208-245 | overwriting bytes of the innermost body leaves every frame and header alone |
| Document.EncodeIsWrapped | include/bson/mut.h:547-564 | the encoding of a tree is the body of any of its documents within the frames that the path to it crosses |
| Document.UpdateKeepsFrames | include/bson/mut.h:93-186 | replacing the document at a path changes neither the path nor the frames around it |
| Document.SpliceIsUpdate | include/bson/mut.h:93-186 | a splice that turns the inner elements' encoding into that of other elements turns the root's bytes into the encoding of the tree updated at that path |
| Document.ReplaceIsSplice | include/bson/mut.h:451-497 | replacing a range of elements is one splice of the encoded list at the range's offsets |
| Document.RekeyIsSplice | include/bson/mut.h:340-372 | renaming an element is one splice behind its tag |
| Iteration.ValSizeLarger | include/bson/detail/iter.h:29-76 | a value size found under a bound is found under every larger bound, regular expressions included |
| Iteration.ElementFits | include/bson/iterator.h:120-294 | the skipped size check would have passed: every accepted element ends strictly before the terminator and has the same size when measured without a bound |
| Iteration.AbortsIffNegativePrefix | include/bson/detail/iter.h:211-224 | the process stops exactly on a readable negative length prefix |
| Iteration.IteratorAt | include/bson/iterator.h:120-294 | an accepted iterator stands where it was asked for with all of the remaining length |
| Iteration.DataSize | include/bson/iterator.h:383-393 | the unbounded size is the one validated when the iterator was made, and leaves at least the terminator |
| Iteration.Next | include/bson/iterator.h:403-409 | the next iterator starts where the element ends, keeps the document's end, and has strictly less left |
| Iteration.ViewFromData | include/bson/view.h:233-269 | a view is made exactly when some prefix of the data is a document, and is that prefix |
| Iteration.Begin | include/bson/iterator.h:317-324 | the first iterator stands behind the header of the document and ends with it |
| Iteration.NegativePrefixAborts | include/bson/detail/iter.h:219-220 | an accepted view whose first element stops the process |
| Iteration.End | include/bson/iterator.h:330-334 | the past-the-end iterator stands at the terminator |
| Iteration.WalkTiles | include/bson/iterator.h:403-409 | walking terminates, every visited element ends before the terminator, and without an error the elements tile the body and the walk stops at the end |
| Iteration.DocumentWalkTiles | include/bson/iterator.h:317-334 | the same from `bson_begin` to `bson_end` of every accepted document |
| Iteration.SearchIsFirstMatch | include/bson/iterator.h:494-501 | the search result is the first visited element with the key, else the end |
| Iteration.Find | include/bson/iterator.h:494-501 | the loop computes that search; an error met on the way ends it as if the key were absent |
| Reading.IteratorAtBoundary | include/bson/iterator.h:120-294 | at each element boundary of an encoded tree the reader finds that element's key and size, and stops only at the end |
| Reading.NextBoundary | include/bson/iterator.h:403-409 | the next iterator of element k is that of element k + 1 |
| Reading.NextIsBoundary | include/bson/iterator.h:403-409 | behind any element that is measured whole, the next iterator is an error or that of element k + 1 |
| Reading.WalkVisitsElements | include/bson/iterator.h:403-409 | walking an encoded tree visits exactly its elements in order |
| Reading.SubIsDelimited | include/bson/detail/iter.h:208-229 | an encoded subdocument is measured by its own length whatever follows it |
| Reading.CleanIsReadable | include/bson/detail/iter.h:208-229 | of a clean tree that fits a header, the document at every path is readable |
| Reading.CleanWalks | include/bson/iterator.h:403-409 | at every depth of a clean tree the walk visits exactly the elements there |
| Reading.CleanReplace | include/bson/mut.h:451-497 | inserting, replacing or erasing clean elements at any path keeps the tree clean |
| Recognition.SeenBytes | include/bson/iterator.h:120-294 | any bytes up to a terminator are those of the elements that the reader recognises one after another, and then bytes that it does not accept |
| Recognition.VisitedAreSeen | include/bson/iterator.h:403-409 | over any bytes, a walk visits exactly the recognised elements, at their places and with their keys |
| Recognition.SeenReadable | include/bson/iterator.h:403-409 | encoded elements are recognised as they are, and the reader goes on with whatever bytes follow them |
| Recognition.WithKeyRecognised | include/bson/mut.h:340-372 | with another key an element is measured as before, and what follows it is the same |
| Values.MeasuredAsSpecified | include/bson/detail/iter.h:29-229 | whatever follows, the reader gives a value its specified size exactly when it is neither a dbpointer (four too few) nor code with scope (eight too many, or an error) nor a regular expression with a NUL (its first two strings) |
| Values.DbPointerEnd | include/bson/iterator.h:594-602 | reading a dbpointer ends four bytes behind what was validated |
| Values.DbPointerReadInsideIff | include/bson/iterator.h:594-602 | that read stays inside the document exactly when four more bytes are left, and leaves it by three at most |
| Values.DbPointerReadsPastEnd | include/bson/iterator.h:594-602 | an accepted document of one dbpointer whose read ends three bytes behind the document |
| Values.PayloadReadsBack | include/bson/iterator.h:524-628 | reading the stored form of any value gives the value back, whatever follows, but for a regular expression with NULs, of which it gives the first two strings; an empty string or code with scope stops the process |
| Values.StoredValueIsRead | include/bson/iterator.h:524-628 | at an element that stores a value, with or without fill bytes, the reader finds its key and value (as above) in any surrounding memory, and goes on where the measured size ends |
| Storage.Doc.Realloc | include/bson/doc.h:82-122 | a refused reallocation changes nothing; a granted one keeps the document and has the capacity asked for |
| Storage.Doc.Reserve | include/bson/doc.h:138-148 | the new capacity is at least the requested size, or the result is negative and nothing changed |
| Storage.NewDocument | include/bson/doc.h:250-267 | an empty document, with the reserved capacity if that was granted; if not, the static bytes were cleared, and still are those of the empty document |
| Storage.ClearDocument | include/bson/doc.h:262-264 | the cleared region is an empty document of the same capacity |
| Integer.MulPredicateExact | include/mlib/integer.h:29-181 | the multiplication predicate holds exactly when the product leaves 64 bits |
| Integer.AddPredicateExact | include/mlib/integer.h:184-361 | the addition predicate holds exactly when the sum leaves 64 bits |
| Integer.SubPredicateMissesOneDifference | include/mlib/integer.h:364-383 | the subtraction predicate holds exactly when the difference leaves 64 bits and is not 2^63 |
| Integer.SaturatingIsClamped | include/mlib/integer.h:666-717 | the saturating forms give the exact result clamped to 64 bits |
| Integer.FlagFreeIsExact | include/mlib/integer.h:654-746 | for every expression tree away from the blind spot, no flag is set exactly when every node is in range, and then the value is the unbounded one |
| Integer.ExactIffAvoidsBlindSpot | include/mlib/integer.h:654-746 | an unflagged expression tree has the unbounded value at every node exactly if it avoids the blind spot |
| Integer.BlindSpotIsWrong | include/mlib/integer.h:687-695 | an unflagged difference is right exactly when it is not 2^63, and that case occurs |
| Integer.Strnlen | include/mlib/integer.h:748-766 | the length up to the first NUL or the bound; flags and negative bounds give flagged zeros |
| Mutator.NewSizeExact | include/bson/mut.h:106-114 | the checked size arithmetic has a result exactly when the new size fits, and is then exact |
| Mutator.ShiftAndFill | include/bson/mut.h:161-181 | shifting the tail and filling the gap in one buffer is the splice of its bytes |
| Mutator.SpliceRoot | include/bson/mut.h:129-182 | at the root: all or nothing, possibly in a new allocation |
| Mutator.SpliceRegion | include/bson/mut.h:93-186 | at any depth: on failure no byte, header or mutator pointer changed; on success the bytes are spliced, every header follows and every pointer is valid; never fails or moves when there is room |
| Mutator.SpliceChild | include/bson/mut.h:116-128 | the child finds its header again after the parent's splice |
| Sync.SpliceBody | include/bson/mut.h:93-186 | the chain is in sync with the spliced body, or nothing changed |
| Sync.OverwriteBody | include/bson/mut.h:233-238 | a write within the body keeps the chain in sync |
| Tracking.EndOf | include/bson/iterator.h:330-334 | the end iterator of the innermost document |
| Insertion.ReservedExact | include/bson/mut.h:717-866 | for every value: the checked size of the value region is its exact size, or there is none because that does not fit; what is copied exceeds the region exactly for the regular expressions of `RegexFitsIff` |
| Insertion.RegexFitsIff | include/bson/mut.h:818-842 | the copied regular expression stays within its region exactly when at most three bytes follow the first NULs |
| Insertion.WrittenAsSpecified | include/bson/mut.h:818-863 | of every value that can be stored, whatever follows, the reader measures the whole exactly when it is neither a regular expression (short, by three without NULs) nor a dbpointer (four short) |
| Insertion.WritePayload | include/bson/mut.h:717-916 | the writes for each kind of value store its bytes and nothing else |
| Insertion.PrepElementRegion | include/bson/mut.h:208-245 | the body gets a new element with tag, key up to its first NUL and a region of fill bytes, or nothing changed |
| Insertion.InsertValue | include/bson/mut.h:717-916 | for any value, through a chain of any depth: the root's bytes encode the tree with exactly the new element at that position and the result refers to it; or nothing changed and the result is the end; code with scope stops the process; and exactly a regular expression that exceeds its region overwrites that many bytes of what follows |
| Insertion.InsertedReadsBack | include/bson/iterator.h:524-628 | for every value that can be stored, what the reader finds at the returned iterator: the cut key and the stored form; and the same value if and only if it is no empty string, null view, cut dbpointer or regular expression with a NUL |
| Insertion.NulRegexChanges | include/bson/mut.h:818-842 | a regular expression that can be inserted and is read back as two other strings |
| Insertion.NulRegexOverruns | include/bson/mut.h:818-842 | one that exceeds its region |
| Insertion.CodeScopeOverruns | include/bson/mut.h:292-314 | for every code and scope, three bytes more are written than the region has, and not what the format asks for |
| Insertion.InsertedWalk | include/bson/mut.h:717-916 | for every value that can be stored: iterating afterwards yields the old elements with exactly the new one spliced in, if and only if the value is neither a regular expression nor a dbpointer |
| Decimal.SpellingDenotes | include/bson/mut.h:375-390 | the spelling has only digits, no leading zero, and denotes the number |
| Decimal.SpellingLength | include/bson/make.hpp:171-181 | it has at most n digits exactly when the number is below 10^n |
| Decimal.Uint32Length | include/bson/mut.h:396-408 | at most ten digits for 32 bits, so the buffer is large enough |
| Decimal.WriteUint | include/bson/mut.h:375-390 | the recursion writes the spelling and a terminator |
| Decimal.U32String | include/bson/mut.h:404-408 | the string created is the spelling |
| Decimal.NumDigits | include/bson/make.hpp:171-181 | the loop counts the digits of the spelling |
| Ranges.SetKey | include/bson/mut.h:340-372 | element k has the new key up to its first NUL and the rest of the tree is unchanged, or nothing changed |
| Ranges.SetKeyBytes | include/bson/mut.h:340-372 | on any body: the key bytes are replaced, or nothing changed |
| Ranges.SpliceRanges | include/bson/mut.h:451-497 | elements i..j are replaced by the other document's elements, or nothing changed |
| Ranges.SpliceSpan | include/bson/mut.h:451-497 | on any body: the bytes between two positions are replaced, or nothing changed; never fails when no more bytes come than go |
| Ranges.SharedIsEmpty | include/bson/doc.h:250-267 | a document on the static bytes is the empty document, edited at its root |
| Ranges.InsertedIsOwn | include/bson/mut.h:142-160 | a document with elements is on bytes of its own |
| Ranges.EraseRange | include/bson/mut.h:520-524 | elements i..j are gone; never fails and never moves the document; writes to the static bytes exactly when the document is on them, which is only when the empty range of the empty document is erased |
| Ranges.EraseOne | include/bson/mut.h:526-528 | halts, with nothing changed, exactly when the next iterator is errant or stops the process; otherwise exactly the measured bytes are gone, and the tree is the one without the element if and only if it is measured whole; never in the static bytes |
| Relabel.RelabelAt | include/bson/mut.h:413-421 | for any elements: exactly those that the reader recognises from k on get the spelling of idx as key, up to the first one whose key cannot be set; returns exactly when none failed and the reader did not abort; on readable elements that is the tree with all these keys replaced and nothing else changed |
| Relabel.RelabelLoop | include/bson/mut.h:416-419 | the loop on any bytes: it ends where the reader stops, whether at the end or with an error |
| Relabel.RecoverIterator | include/bson/iterator.h:305-311 | the recovered iterator is what the reader makes of the bytes at the old offset |
| Relabel.RelabelCountsIffSingle | include/bson/mut.h:413-421 | the relabelled keys count up exactly when there is at most one |
| Relabel.RegexStopsRelabelling | include/bson/mut.h:413-421 | behind an inserted regular expression without NULs the loop ends with an error, and no later element is relabelled |
| Undo.InsertThenErase | include/bson/mut.h:526-528 | at every position of the reader, erasing what was inserted restores the tree if and only if the value is neither a regular expression nor a dbpointer |
| Undo.RegexNextErrant | include/bson/iterator.h:403-409 | behind every inserted regular expression without NULs the next iterator is errant |
| Nesting.MutChild | include/bson/mut.h:547-564 | null exactly when the element is no document or array; otherwise the longer chain tracks the same tree one level deeper, with the value seen as any document whose bytes it has |
| Nesting.ViewAsTree | include/bson/mut.h:547-564 | a chain that tracks a tree with a document stored as bytes tracks the tree with that document in it |
| Nesting.InsertedDocument | include/bson/mut.h:737-771 | what is stored for a document or array has its bytes and tag, so it can be edited through a child |
| Nesting.MutParentIterator | include/bson/mut.h:573-585 | the parent's iterator to the child's element, and the arithmetic never trips its assertion |
| Nesting.ParentIteratorKept | include/bson/mut.h:573-585 | after any edit through the child it names the same element and key, and its remaining length moves by the size change |
| Nesting.MutCapacity | include/bson/mut.h:35-57 | capacity minus size is the same at every depth, and the checked arithmetic never trips its assertion |
| Nesting.InsertSubdoc | include/bson/mut.h:698-706 | an empty subdocument and a child mutator for it, or nothing changed |
| Make.RangeByteSize | include/bson/make.hpp:237-246 | the loop computes the announced size of the array |
| Make.ValueLaw | include/bson/make.hpp:54-95 | for every value rule, what is appended against what is announced |
| Make.ArrayLaw | include/bson/make.hpp:186-259 | the same for the values of an array, with absent slots |
| Make.DocLaw | include/bson/make.hpp:278-301 | the same for the elements of a document |
| Make.BuilderSizeLaw | include/bson/make.hpp:285-301 | the built size is `byte_size` plus five, plus five per nested document or array and the uncounted value bytes, minus the counted bytes that are not written; and exactly when the reservation is enough |
| Make.PlainSizeLaw | include/bson/make.hpp:285-301 | for plain rules nothing is counted in vain, so the reservation is always at least five bytes short |
| Refusals.PartialCount | include/bson/make.hpp:202-205 | for a value rule: each refused empty document or array costs exactly one element, and without refusals nothing is missing |
| Refusals.PartialDocCount | include/bson/make.hpp:292-295 | the tree that was built is the tree of the rules exactly when nothing was refused, and otherwise lacks as many elements as were refused |
| Builder.EmplaceBack | include/bson/mut.h:624-674 | the element is appended, or it throws and nothing changed, as always for an end-of-document value; a null mutator and code with scope stop the process; never fails when there is room |
| Builder.PushSubdoc | include/bson/mut.h:698-709 | a new empty last subdocument and a child for it, or an unreported null child and nothing changed |
| Builder.AppendValue | include/bson/make.hpp:41-51 | ending normally, the document at the path has the elements of the rule but for the refused empty ones; through a null mutator exactly the rules that append nothing end normally; with room nothing is refused; whatever happens the bytes encode a tree |
| Builder.AppendNested | include/bson/make.hpp:202-205 | a refused subdocument goes unnoticed exactly when nothing is nested in it |
| Builder.AppendArray | include/bson/make.hpp:248-255 | the array gets its values under the numbers of their slots, with the same outcomes |
| Builder.AppendElements | include/bson/make.hpp:292-295 | the document gets the elements of all rules in order, with the same outcomes |
| Builder.AppendElement | include/bson/make.hpp:319-383 | pairs, optional pairs and conditionals, with the same outcomes |
| Builder.Build | include/bson/make.hpp:285-290 | ending normally, the document encodes the tree of the rules, with the size the size law gives, exactly when no subdocument was refused; it ends so whenever the reservation was granted and covers that size; in every case the bytes encode a tree and the static bytes are kept |
| Builder.BuildOneEmpty | include/bson/make.hpp:285-295 | building one empty document in a document always ends normally, and with `{}` exactly when the allocation was refused |
| Builder.BuiltWalks | include/bson/iterator.h:403-409 | whatever was refused, a built document of values other than regular expressions and dbpointers is readable at every depth and each walk visits exactly the elements there |
| Builder.InsertedStaysClean | include/bson/mut.h:717-916 | so it stays after any further insertion of such values anywhere |
| Parse.AnyIsFirstDecision | include/bson/parse.hpp:149-213 | `any` decides by the first rule that does not reject |
| Parse.AllIsFirstRefusal | include/bson/parse.hpp:224-288 | `all` decides by the first rule that does not accept |
| Parse.Part.HandleElement | include/bson/parse.hpp:677-695 | a part's answer and what it remembers |
| Parse.DocParser.OfferElement | include/bson/parse.hpp:901-905 | the fold offers an element up to the first part that does not reject |
| Parse.DocParser.Parse | include/bson/parse.hpp:895-913 | the loop leaves the parts as the one-pass run does, and the verdict is that of their final states |
| Parse.DocParser.FinalState | include/bson/parse.hpp:832-847 | error before rejection before acceptance |
| Parse.ParserMeetsSpec | include/bson/parse.hpp:664-913 | for any parts, competing or not, the one-pass parser errors, rejects and accepts exactly as a specification by what each part decides on the elements that no earlier part claims |
| Parse.DecidesAlone | include/bson/parse.hpp:664-722 | when no element interests two parts, each decides as if it were alone |
| Parse.FieldVerdict | include/bson/parse.hpp:664-913 | for optional and required fields with distinct keys and `reject_others`: error, rejection and acceptance by each field on its own |
| Parse.EarlyExitIsHarmless | include/bson/parse.hpp:898-900 | leaving when all parts are done never changes what any part remembers |
| Parse.RequireVerdict | include/bson/parse.hpp:725-739 | required fields accept exactly when each one's first decision is to accept |
| Parse.AllImpliesDoc | include/bson/parse.hpp:488-508 | what `all` of the searching rules accepts, `doc` accepts |
| Parse.Agree | include/bson/parse.hpp:488-508 | if some key is absent, or every element with a key of interest equals the first one, `doc` and `all` accept the same |
| Parse.Differ | include/bson/parse.hpp:488-508 | otherwise there are rules for which `doc` accepts and `all` does not |
| Parse.DocIsAllIff | include/bson/parse.hpp:488-508 | for given keys the two agree for every choice of rules exactly under that condition |
| Parse.DocIsAllWithoutDuplicates | include/bson/parse.hpp:488-508 | in particular without duplicate keys |
| Parse.DuplicateKeyDiffers | include/bson/parse.hpp:488-508 | a document with a duplicate key and rules for which the two differ |
| Parse.Each | include/bson/parse.hpp:593-601 | the first element that is not accepted decides |
| Race.Handler.ResolveLocked | src/amongoc/nano/first.hpp:192-206 | the critical section |
| Race.Handler.AfterUnlock | src/amongoc/nano/first.hpp:207-215 | the last completion delivers, or terminates the program |
| Race.FirstAcceptedMeaning | src/amongoc/nano/first.hpp:195-204 | what the first acceptance in lock order is |
| Race.RaceSafety | src/amongoc/nano/first.hpp:152-216 | in every interleaving at most one delivery, only after all have resolved, of the first accepted completion in lock order; one stop request exactly if something accepted has resolved |
| Race.RaceCompletes | src/amongoc/nano/first.hpp:187-222 | every complete run with an acceptance delivers once; without one the program was terminated |
| Join.Handler.Emplace | src/amongoc/nano/all.hpp:83-84 | the store fills the operation's own slot |
| Join.Handler.FetchSub | src/amongoc/nano/all.hpp:85 | the atomic decrement |
| Join.Handler.AfterSub | src/amongoc/nano/all.hpp:85-97 | `_finish` is called by the one that saw 1 |
| Join.JoinSafety | src/amongoc/nano/all.hpp:60-97 | in every interleaving `_finish` runs at most once, by the operation whose decrement saw 1, with every slot holding its own operation's value |
| Join.JoinCompletes | src/amongoc/nano/all.hpp:80-97 | once all are done it has run exactly once, and no other decrement saw 1 |
| ConnectionPool.Pool.TakeIdle | src/amongoc/connection_pool.cpp:112-129 | the locked part of `checkout` |
| ConnectionPool.Pool.Establish | src/amongoc/connection_pool.cpp:139-145 | a new connection gets the next id and one holder |
| ConnectionPool.Pool.Return | src/amongoc/connection_pool.cpp:162-165 | a returned connection is the first idle one |
| ConnectionPool.Pool.DropMember | src/amongoc/connection_pool.cpp:225-230 | a member's connection is returned unless it perished |
| ConnectionPool.Pool.FinishRequest | src/amongoc/connection_pool.hpp:88-96 | a failed request marks the connection |
| ConnectionPool.InvAlways | src/amongoc/connection_pool.cpp:112-230 | every action sequence keeps the invariant |
| ConnectionPool.PoolConserves | src/amongoc/connection_pool.cpp:112-230 | in every run each connection is idle, in one member, or destroyed: exactly one of these; no two requests share a connection |
| ConnectionPool.IdsRepeatIff | src/amongoc/connection_pool.cpp:196 | two ids are equal exactly when the connections are a multiple of 2^32 apart |
| ConnectionPool.IdRepeats | src/amongoc/connection_pool.cpp:196 | a run whose first and last connections have the same id |
| ConnectionPool.FailedNeverIdle | src/amongoc/connection_pool.hpp:88-96 | a connection whose request threw is never idle again |
| ConnectionPool.FailedClientDiscards | src/amongoc/connection_pool.hpp:131-140 | after a failed request the client's reset destroys the connection, whatever others do in between and afterwards |
| ConnectionPool.UnmarkedLostIff | src/amongoc/connection_pool.cpp:178 | a held connection on which no request failed is destroyed by an action exactly if that is an assignment to the member that holds it |
| ConnectionPool.AssignmentLoses | src/amongoc/connection_pool.cpp:178 | a run that loses a connection on which nothing failed |
| ConnectionPool.LostByAssignment | src/amongoc/connection_pool.cpp:225-230 | in every run, a connection destroyed unmarked was lost to such an assignment |
| ConnectionPool.ReturnedIsReused | src/amongoc/connection_pool.cpp:119-126 | the connection returned last is the one the next checkout gets |
| Listeners.Listener.constructor | src/amongoc/event_emitter.hpp:55-67 | the new listener is at the front and the list stays well formed |
| Listeners.Listener.Destroy | src/amongoc/event_emitter.hpp:69-75 | exactly this listener leaves the list, from any position |
| Listeners.PrevIsUniqueSlot | src/amongoc/event_emitter.hpp:55-81 | `_previous_nextptr` is the one slot of the list that points at the listener |
| Listeners.Emitter.Fire | src/amongoc/event_emitter.hpp:28-39 | visits exactly the listeners in the list, in order |
| Listeners.LiveMeaning | src/amongoc/event_emitter.hpp:50-75 | of any history, exactly the listeners constructed and not destroyed since are live, newest first |
| Listeners.Replay | src/amongoc/event_emitter.hpp:28-75 | after any history of constructions and destructions, firing reaches exactly the live listeners, each once, newest first |
| ObjectPool.Pool.Checkout | src/amongoc/pool.hpp:100-112 | the front object, or a new one when there is none, in a new ticket |
| ObjectPool.Pool.Return | src/amongoc/pool.hpp:124-131 | back to the front, unless the pool is full |
| ObjectPool.Ticket.Destroy | src/amongoc/pool.hpp:69-75 | a held object goes back to its pool, or is destroyed if that is full |
| ObjectPool.Ticket.Discard | src/amongoc/pool.hpp:66-67 | the object is destroyed, once |
| ObjectPool.Ticket.Move | src/amongoc/pool.hpp:56 | the object changes tickets |
| ObjectPool.Ticket.Assign | src/amongoc/pool.hpp:57 | within one pool or between two: the object changes tickets, the ticket changes pools, and the object overwritten is destroyed without returning |
| ObjectPool.Conservation | src/amongoc/pool.hpp:53-132 | objects ever created = the hand-kept count + objects in tickets + objects destroyed |

## Left out

- Insertion.InsertValue: where the copy of a regular expression would go on over the end of the innermost document, the model stops before it and does not say what it overwrites; insert sources that overlap the document are forbidden by the API.
- Builder.EmplaceBack: is about values that fit their region; for the others see `InsertValue`.
- Builder.BuiltWalks: is about values other than regular expressions and dbpointers, behind which a walk goes on within the element.
- Ranges.SpliceRanges: takes the source range as its bytes rather than as pointers into another document.
- Relabel.RelabelAt: when a key cannot be set, the code calls `bson_next` on the past-the-end iterator, which asserts; the model stops there.
- Parse.ParserMeetsSpec: rules are pure, so `store` and `action` are not part of it, nor are error messages.
- Race.RaceSafety: predicates with `on_none_accepted` and stop callbacks that complete a sub-operation while the lock is held are not modelled; each sub-operation completes exactly once (`nano/simultaneous.hpp` and `nano/stop.hpp` are not part of this model).
- Join.JoinSafety: `empty_start`, which finishes at once when there are no operations, is not modelled.
- ConnectionPool.PoolConserves: resolving, connecting, TLS and the handshake are one step that succeeds or fails; destroying the pool, or a coroutine in mid-flight, is not modelled, nor is the generation number, which never changes.
- ConnectionPool.FailedClientDiscards: the client's reset is the action that drops its member; its lazy checkout is an ordinary checkout.
- Listeners.Emitter.Fire: callbacks that add or remove listeners during the dispatch are not modelled.
- ObjectPool.Pool.Checkout: destroying the pool before its tickets is not modelled.
- Builder.Build: exceptions and tripped assertions are outcomes; which of the elements are there when the build did not end normally is not stated.
- Mutators that are stale because a sibling edited the same parent; the API forbids them.
- The remaining integer widths of the checked-arithmetic macros, and the error record they fill.
- Insertion.CodeScopeOverruns: says how much `bson_insert_code_with_scope` writes, not what becomes of the document, as it always leaves its region.
- Conversions, formatting, status codes, URIs, wire messages, coroutine and event-loop plumbing, compression and CRUD commands: thin layers over the parts above.
