# Verified models of MailCore's algorithms and protocols

MailCore 2 is a C++ library for IMAP, POP, SMTP and NNTP. This project models in Dafny the parts of it
that carry an algorithm or a protocol of their own, and proves what they do for every input and every
run:

- the Bentley-McIlroy quicksort of the Android port (`QuickSort`);
- the sets of 64-bit indices, kept as ranges in a growing array (`Ranges`, `IndexSets`, `IndexSet`,
  `IndexSetEquality`, `IndexSetIterators`);
- the six converters between UTF-8, UTF-16 and UTF-32 (`Unicode`, `Utf8Syntax`, `Segments`, `Targets`,
  `Utf8to16`, `Utf8to32`, `Utf16Source`, `Utf16to8`, `Utf16to32`, `Utf32Source`, `Utf32to16`, `Utf32to8`,
  and what they do together in `Conversions` and `ConversionRuns`);
- the JSON parser and printer (`JsonSyntax`, `JsonNumbers`, `JsonStrings`, `JsonGrammar`, `JsonTexts`,
  `JsonParser`, `JsonPrinter`);
- the inversion of the calendar and the dates with a zone (`Calendar`, `Timestamps`);
- the streaming and padding of MD5 (`Md5`);
- the chained hash table (`HashMaps`);
- the pool of IMAP connections and their delayed disconnection (`ConnectionPool`, `ConnectionLifecycle`,
  and the objects that take the steps of both in `AsyncSession`);
- the numbering of MIME parts and the search for them (`PartNumbering`);
- the recipients of a reply (`ReplyAll`);
- Base64 (`Base64`).

Code that changes things step by step is modelled by classes, arrays and loops that do the same, and
each such method is proved against a function or a predicate on values; the properties are then lemmas
about those. `Basics` holds what several modules share. `dafny verify dfyconfig.toml` checks the
project.

## Where the code does not do what one would expect

Some properties hold only under a condition, which is then stated exactly:

- adding a range to an index set can lose indices (`IndexSets.AddRangeIsUnionIff`);
- comparing ranges decides equality of sets exactly for ranges that are apart and written alike
  (`IndexSetEquality.EqualSetsMayDifferIff`), and adding a range does not always leave them so: one that
  touches a range on either side is joined only with the one before, because the second test looks at a
  shifted place (`IndexSetEquality.AddRangeDoesNotCoalesce`), and a join that reaches the largest index
  writes the length of the endless range differently
  (`IndexSetEquality.AddRangeWritesTopDifferently`); `IndexSetEquality.AddRangeStaysCanonicalIff` says
  exactly when neither happens;
- iterating an index set never leaves a range of 2^32 elements or more
  (`IndexSetIterators.LeavesRangeIff`);
- intersecting index sets goes wrong at index 0 and at the largest index, where bounds wrap
  (`IndexSets.KeptIsIntersectionIff`);
- a JSON text that is only `true`, `false` or `null` is not read (`JsonTexts.BareKeyword`), and numbers
  of other C types are read as `long long`, those above its range as its maximum, so only `long long`
  values come back equal (`JsonTexts.ExactIff`, `JsonPrinter.PrintedReadsBackIff`);
- a date loses the seconds of its zone, and a local year below 1000 moves by 2000 years
  (`Timestamps.ThroughDateMoves`);
- with a limit of two connections or more, disabling concurrent access to folders does not keep a folder
  from being worked on by two connections (`ConnectionPool.OneFolderOneConnectionIff`), although the
  Objective-C header `src/objc/imap/MCOIMAPSession.h`, lines 107 to 111, promises that only enabling it
  allows that; what does hold is that no two connections were last given the same folder;
- the reply to a message that its author sent to nobody else has no recipient
  (`ReplyAll.NobodyToReplyToIff`), and the reply to an own message without author and recipients, such as
  that of `ReplyAll.AuthorMayBeLacking`, dereferences a null author (`ReplyAll.LacksAuthorIff`);
- behind a leading plus and blank, the Base64 decoder reads up to two characters past the end of a text
  of 4 characters or more whose length is 0 or 1 modulo 4, and these decide what is decoded
  (`Base64.DependsOnTextIff`, `Base64.ReadsBehindText`).

## Model

| member | source | states |
|---|---|---|
| `QuickSort.Med3` | src/core/basetypes/MCAndroid.cpp:94-104 | the element chosen is one of the three and, for a total preorder, neither below nor above both of the others |
| `QuickSort.VecSwap` | src/core/basetypes/MCAndroid.cpp:69-86 | exactly two disjoint stretches change places, element by element, and everything else stays |
| `QuickSort.InsertionSort` | src/core/basetypes/MCAndroid.cpp:122-129 | the stretch is rearranged, for any comparator, and in order for a total preorder |
| `QuickSort.Partition` | src/core/basetypes/MCAndroid.cpp:143-169 | the two scans cross and leave five regions: equal, less, (none), greater, equal to the pivot, whatever the comparator returns in between |
| `QuickSort.BlockSwapsSplit` | src/core/basetypes/MCAndroid.cpp:179-183 | moving the shorter of the two blocks on each side brings the equal elements to the middle: less, equal, greater |
| `QuickSort.Gather` | src/core/basetypes/MCAndroid.cpp:179-183 | both block swaps, in place, rearrange the stretch and split it around the pivot |
| `QuickSort.Pass` | src/core/basetypes/MCAndroid.cpp:120-183 | one turn of the loop: done and in order through either insertion sort, or split around a pivot into parts that are both smaller |
| `QuickSort.Sort` | src/core/basetypes/MCAndroid.cpp:108-197 | recursion on the left part and iteration on the right terminate; the result rearranges the stretch, in order for a total preorder |
| `QuickSort.QsortR` | src/core/basetypes/MCAndroid.cpp:108-197 | the array is a permutation of what it was for every comparator, and sorted for every total preorder |
| `Ranges.RangeIntersection` | src/core/basetypes/MCRange.cpp:31-61 | the intersection holds exactly the indices of both ranges, the empty range standing for none |
| `Ranges.RangeRemoveRangeMeaning` | src/core/basetypes/MCRange.cpp:68-104 | the at most two ranges that are left hold exactly the indices of the first and not of the second, inside the first and apart from each other |
| `Ranges.RangeUnionMeaning` | src/core/basetypes/MCRange.cpp:106-138 | the one or two ranges hold exactly the indices of either |
| `IndexSets.RangeIndexForIndex` | src/core/basetypes/MCIndexSet.cpp:82-112 | the binary search finds a range exactly for the indices that the set contains |
| `IndexSets.LeftRangeIndexForIndex` | src/core/basetypes/MCIndexSet.cpp:145-174 | the binary search finds the first range that does not end before an index |
| `IndexSets.LastMetIsBlockEnd` | src/core/basetypes/MCIndexSet.cpp:244-251 | the scan of merging stops at the end of the block of ranges that meet the new one |
| `IndexSets.AddedMeaning` | src/core/basetypes/MCIndexSet.cpp:211-261 | adding a range keeps the ranges sorted and disjoint, and the set becomes the union but for the indices that merging loses |
| `IndexSets.AddRangeIsUnionIff` | src/core/basetypes/MCIndexSet.cpp:211-261 | the result is the union exactly when the new range meets at most one stored range or starts no later than the first one it meets |
| `IndexSets.SweepDone` | src/core/basetypes/MCIndexSet.cpp:276-312 | the ranges that the sweep of removal leaves, without those it marked, denote the set minus the range, sorted and disjoint |
| `IndexSets.TwoRemovals` | src/core/basetypes/MCIndexSet.cpp:368-378 | removing what lies before a range and what lies after it leaves the intersection, with the conventions at both ends of the 64-bit range |
| `IndexSets.KeptIsIntersectionIff` | src/core/basetypes/MCIndexSet.cpp:430-442 | intersecting with a set gives the intersection exactly when the wrapped bounds at index 0 and at the largest index take nothing with them |
| `IndexSets.AddedAllAfter` | src/core/basetypes/MCIndexSet.cpp:416-421 | adding a set whose ranges come after all others gives the union |
| `IndexSetEquality.CanonicalIsUnique` | src/core/basetypes/MCIndexSet.cpp:401-414 | ranges that are apart, and not only disjoint, and written alike are determined by the set, so there comparing ranges decides equality |
| `IndexSetEquality.EqualSetsMayDifferIff` | src/core/basetypes/MCIndexSet.cpp:401-414 | and only there: every other array differs from the canonical array of its set |
| `IndexSetEquality.JoinedIsCanonicalIff` | src/core/basetypes/MCIndexSet.cpp:226-238 | joining a range with its neighbours leaves ranges apart and written alike exactly when it does not touch both and no join reaches the largest index from a start other than 0 |
| `IndexSetEquality.AddRangeStaysCanonicalIff` | src/core/basetypes/MCIndexSet.cpp:211-238 | adding a range keeps ranges apart and written alike exactly when it does not touch one on either side and no join reaches the largest index from a start other than 0 |
| `IndexSetEquality.ComparingDecidesAfterAddIff` | src/core/basetypes/MCIndexSet.cpp:401-414 | so exactly then comparing what `addRange` leaves with canonical ranges goes on to decide equality of sets |
| `IndexSet.IndexSet.Copy` | src/core/basetypes/MCIndexSet.cpp:34-43 | a copy has the same ranges in an array of its own |
| `IndexSet.IndexSet.ContainsIndex` | src/core/basetypes/MCIndexSet.cpp:319-323 | true exactly for the indices in the set |
| `IndexSet.IndexSet.AddRangeIndex` | src/core/basetypes/MCIndexSet.cpp:176-209 | a place is opened in the array, grown if it is full, and the other ranges keep their order |
| `IndexSet.IndexSet.TryToMergeAdjacentRanges` | src/core/basetypes/MCIndexSet.cpp:226-238 | two neighbours become one exactly when the first ends right before the second |
| `IndexSet.IndexSet.MergeRanges` | src/core/basetypes/MCIndexSet.cpp:240-261 | the new range and the block it meets become the union of the new range with the last of the block |
| `IndexSet.IndexSet.RemoveRangeIndex` | src/core/basetypes/MCIndexSet.cpp:268-274 | a stretch of the array is removed and the rest keeps its order |
| `IndexSet.IndexSet.AddRange` | src/core/basetypes/MCIndexSet.cpp:211-224 | in place, the ranges become those of `IndexSets.AddedMeaning` |
| `IndexSet.IndexSet.AddIndex` | src/core/basetypes/MCIndexSet.cpp:263-266 | the same for a single index |
| `IndexSet.IndexSet.RemoveRange` | src/core/basetypes/MCIndexSet.cpp:276-312 | in place, the ranges become sorted, disjoint ranges of the set minus the range; the empty range removes nothing |
| `IndexSet.IndexSet.RemoveIndex` | src/core/basetypes/MCIndexSet.cpp:314-317 | the same for a single index; the largest index is never removed |
| `IndexSet.IndexSet.IntersectsRange` | src/core/basetypes/MCIndexSet.cpp:368-378 | in place, the set becomes its intersection with the range, with the conventions at both ends, also for the range of the largest index alone |
| `IndexSet.IndexSet.AddIndexSet` | src/core/basetypes/MCIndexSet.cpp:416-421 | the ranges of another set are added one after another; a set added to itself stays the same set, though its array may change meanwhile |
| `IndexSet.IndexSet.IntersectsIndexSet` | src/core/basetypes/MCIndexSet.cpp:430-442 | in place, sorted and disjoint ranges of what intersecting with each range of the other set keeps |
| `IndexSet.IndexSet.Count` | src/core/basetypes/MCIndexSet.cpp:73-80 | the total of the lengths in 32-bit arithmetic |
| `IndexSetIterators.ElementsHold` | src/core/basetypes/MCIterator.h:65-103 | the elements to visit are exactly those of the set |
| `IndexSetIterators.ElementsAscend` | src/core/basetypes/MCIterator.h:84-103 | they are visited in strictly ascending order, so each once |
| `IndexSetIterators.TotalCountsElements` | src/core/basetypes/MCIndexSet.cpp:73-80 | their number is the total that `count` computes |
| `IndexSetIterators.IndexSetIterator.Value` | src/core/basetypes/MCIterator.h:79-82 | the next element to visit, or -1 |
| `IndexSetIterators.IndexSetIterator.Next` | src/core/basetypes/MCIterator.h:84-103 | one element is passed, and no other, also from one range to the next |
| `IndexSetIterators.LeavesRangeIff` | src/core/basetypes/MCIterator.h:84-103 | the 32-bit index leaves a range exactly when it has fewer than 2^32 elements; on a longer one it starts over |
| `IndexSetIterators.ForEach` | src/core/basetypes/MCIterator.h:51-54 | the loop visits all elements in order, as many as the total, for ranges of fewer than 2^32 elements below 2^63 |
| `IndexSetIterators.CountThenForEach` | src/core/basetypes/MCIndexSet.cpp:73-80 | `count` is the number of elements the loop visits, modulo 2^32 |
| `Unicode.Encode8Means` | src/core/basetypes/ConvertUTF.c:263-281 | the bytes hold the bits of a value behind their marks, highest first, in as few bytes as it takes (section 3 of RFC 3629) |
| `Unicode.Encode16Means` | src/core/basetypes/ConvertUTF.c:150-158 | one unit, or ten bits in each of two surrogates (section 2.1 of RFC 2781) |
| `Utf8Syntax.WrittenIsEncode8` | src/core/basetypes/ConvertUTF.c:276-281 | the fall-through stores with marks and masks give the bytes of the encoding form of section 3 of RFC 3629 |
| `Utf8Syntax.EncodedIsLegal` | src/core/basetypes/ConvertUTF.c:355-378 | the encoding of every scalar value passes the length table and `isLegalUTF8`, and the shifts and the magic offset read it back |
| `Utf8Syntax.LegalIsEncoded` | src/core/basetypes/ConvertUTF.c:355-378 | and every sequence that passes is the encoding of the scalar value it is read as |
| `Utf8Syntax.IllegalIsUnconvertible` | src/core/basetypes/ConvertUTF.c:386-392 | where `isLegalUTF8Sequence` fails no scalar value begins |
| `Utf8Syntax.FoundIsMaximalSubpart` | src/core/basetypes/ConvertUTF.c:396-485 | the length found is that of the maximal subpart of definition D93b of Unicode 6.3: the longest beginning of a well-formed sequence, or one byte |
| `Targets.Target.PutBackwards` | src/core/basetypes/ConvertUTF.c:324-335 | storing from the last byte to the first fills the places after the cursor and nothing else |
| `Utf16Source.ReadUnits` | src/core/basetypes/ConvertUTF.c:175-204 | one turn reads a scalar value, or in lenient mode an unpaired surrogate, or stops for the reason that is there |
| `Utf16to8.ConvertUTF16toUTF8` | src/core/basetypes/ConvertUTF.c:221-287 | the output is the UTF-8 of the segments read so far; it stops only at a segment boundary, and for the right reason |
| `Utf16to32.ConvertUTF16toUTF32` | src/core/basetypes/ConvertUTF.c:167-220 | the same into UTF-32 |
| `Utf32to16.ConvertUTF32toUTF16` | src/core/basetypes/ConvertUTF.c:118-163 | the output is the UTF-16 of the units read, too large ones dropped in strict mode and replaced in lenient mode, and the flag tells whether there were any |
| `Utf32to8.ConvertUTF32toUTF8` | src/core/basetypes/ConvertUTF.c:291-340 | the output is the UTF-8 of the units read, too large ones replaced, and the flag tells whether there were any |
| `Utf8to16.ConvertUTF8toUTF16` | src/core/basetypes/ConvertUTF.c:515-596 | the output is the UTF-16 of the segments read, maximal subparts replaced in lenient mode, where a target as long as the source never overflows |
| `Utf8to32.ConvertUTF8toUTF32Impl` | src/core/basetypes/ConvertUTF.c:600-685 | the same into UTF-32, with the partial and the whole treatment of a truncated end |
| `Utf8to16.LenientHasRoom` | src/core/basetypes/ConvertUTF.c:534-542 | the stores of lenient mode that have no check of their own stay inside a target as long as the source |
| `Conversions.StrictUtf16ToUtf8` | src/core/basetypes/ConvertUTF.c:221-287 | with enough room, success exactly for well-formed text, and then the UTF-8 of the same scalar values |
| `Conversions.StrictUtf8ToUtf16` | src/core/basetypes/ConvertUTF.c:515-596 | with enough room, success exactly for well-formed text, and then the UTF-16 of the same scalar values (section 2.1 of RFC 2781) |
| `Conversions.StrictUtf8ToUtf32` | src/core/basetypes/ConvertUTF.c:600-685 | with enough room, success exactly for well-formed text, and then its scalar values |
| `Conversions.StrictUtf16ToUtf32` | src/core/basetypes/ConvertUTF.c:167-220 | with enough room, success exactly for well-formed text, and then its scalar values (section 2.2 of RFC 2781) |
| `Conversions.StrictUtf32ToUtf16` | src/core/basetypes/ConvertUTF.c:118-163 | with enough room, success exactly for scalar values, and then their UTF-16 |
| `Conversions.StrictUtf32ToUtf8` | src/core/basetypes/ConvertUTF.c:291-340 | with enough room, success exactly for scalar values, and then their UTF-8 |
| `Conversions.RoundTrip16` | src/core/basetypes/ConvertUTF.c:221-287 | UTF-16 to UTF-8 and back is the identity on well-formed text |
| `Conversions.RoundTrip8` | src/core/basetypes/ConvertUTF.c:515-596 | UTF-8 to UTF-16 and back is the identity on well-formed text |
| `Conversions.TwoWays` | src/core/basetypes/ConvertUTF.c:600-685 | UTF-8 to UTF-16 and UTF-8 to UTF-32 to UTF-16 agree |
| `Conversions.Piece8to16` | src/core/basetypes/ConvertUTF.c:557-587 | a strict conversion of well-formed text stops at a character boundary on both sides, and only for lack of room for the next character |
| `ConversionRuns.InPieces8to16` | src/core/basetypes/ConvertUTF.c:515-596 | resuming with any sequence of target sizes stops between two characters on both sides and appends to the output of one conversion; rooms of two units always finish |
| `ConversionRuns.InPieces16to8` | src/core/basetypes/ConvertUTF.c:221-287 | the same from UTF-16 to UTF-8, with rooms of four bytes |
| `ConversionRuns.InPieces8to32` | src/core/basetypes/ConvertUTF.c:600-685 | the same from UTF-8 to UTF-32, with rooms of one unit |
| `ConversionRuns.InPieces16to32` | src/core/basetypes/ConvertUTF.c:167-220 | the same from UTF-16 to UTF-32, with rooms of one unit |
| `ConversionRuns.InPieces32to16` | src/core/basetypes/ConvertUTF.c:118-163 | the same from UTF-32 to UTF-16, with rooms of two units |
| `ConversionRuns.InPieces32to8` | src/core/basetypes/ConvertUTF.c:291-340 | the same from UTF-32 to UTF-8, with rooms of four bytes |
| `ConversionRuns.Resume` | src/core/basetypes/ConvertUTF.c:557-587 | between any two encodings, a conversion of what an earlier one left adds its characters to those converted before |
| `ConversionRuns.WholeSegmentsAreUnique` | src/core/basetypes/ConvertUTF.c:600-685 | a text splits into characters and maximal ill-formed subparts in one way only |
| `ConversionRuns.LenientUtf8ToUtf32` | src/core/basetypes/ConvertUTF.c:696-701 | every byte string converts, to its characters and one U+FFFD for each maximal subpart; the flag is set exactly for ill-formed text |
| `ConversionRuns.IsLegalUTF8String` | src/core/basetypes/ConvertUTF.c:503-511 | true exactly for well-formed text, and otherwise the source stops where no character begins |
| `JsonNumbers.DoubleEndIsLongest` | src/core/basetypes/MCJSONParser.cpp:574-578 | `strtod` is taken to convert the longest beginning that is a number in the grammar of the C standard, and nothing exactly where there is none |
| `JsonNumbers.ReadLongMeans` | src/core/basetypes/MCJSONParser.cpp:579-582 | `strtoll` is taken to convert as much exactly where that is an integer, decimal, octal or hexadecimal by how it starts, and to its value |
| `JsonNumbers.ParseFloatMeans` | src/core/basetypes/MCJSONParser.cpp:561-595 | a number is read exactly as the longest one within fifty units, to the long long or the double that its text stands for |
| `JsonStrings.PieceIsRead` | src/core/basetypes/MCJSONParser.cpp:347-497 | every escape is read: the letters, one to three octal digits, up to four or two hexadecimal digits, or a backslash that stays |
| `JsonStrings.EscapeIsPiece` | src/core/basetypes/MCJSONParser.cpp:347-497 | and what is read behind a backslash is one of these |
| `JsonStrings.StringIsRead` | src/core/basetypes/MCJSONParser.cpp:312-531 | pieces between two quotes of one kind are read to their characters |
| `JsonStrings.ReadIsString` | src/core/basetypes/MCJSONParser.cpp:312-531 | and whatever is read for a string is made of pieces, up to the quote that opened it |
| `JsonGrammar.FormIsRead` | src/core/basetypes/MCJSONParser.cpp:68-295 | every text of the grammar of the parser is read to what it stands for, wherever it ends |
| `JsonGrammar.ElementsAreForm` | src/core/basetypes/MCJSONParser.cpp:235-294 | what is read of an array is elements with exactly one comma between each two, up to its bracket |
| `JsonGrammar.PairsAreForm` | src/core/basetypes/MCJSONParser.cpp:121-204 | what is read of a dictionary is pairs of a string and a value with a colon between them and commas between the pairs, up to its brace |
| `JsonGrammar.ReadsExactlyForms` | src/core/basetypes/MCJSONParser.cpp:68-295 | a value is read exactly where a text of the grammar stands and ends, and to what it stands for: everything else is refused |
| `JsonGrammar.TextYieldsIff` | src/core/basetypes/MCJSONParser.cpp:611-626 | a whole text yields an object exactly if it begins, behind blanks, with such a text |
| `JsonTexts.FormOfIs` | src/core/basetypes/MCJSONParser.cpp:68-295 | layouts are texts of that grammar, with the same meaning |
| `JsonTexts.StringReads` | src/core/basetypes/MCJSONParser.cpp:312-531 | a string is read to its characters, each standing for itself, after a backslash, or as four hexadecimal digits (section 7 of RFC 8259) |
| `JsonTexts.NumberReads` | src/core/basetypes/MCJSONParser.cpp:561-595 | a decimal integer of at most twenty digits is read, a number above the signed 64-bit range as its maximum, and exactly its text is consumed |
| `JsonTexts.LayoutReads` | src/core/basetypes/MCJSONParser.cpp:68-295 | every text of strings in any spelling, integers, keywords, arrays and objects, with any blanks between tokens, is read to what it stands for, and exactly that text is consumed whatever follows it |
| `JsonTexts.BareKeyword` | src/core/basetypes/MCJSONParser.cpp:217-233 | `true`, `false` and `null` that end the content are not read, because the test of the length is one too strict |
| `JsonTexts.ReadsBack` | src/core/basetypes/MCJSONParser.cpp:611-626 | a whole text is read to the object it was made from, C types included, exactly when it is not a bare keyword and every number is a `long long` |
| `JsonTexts.ExactIff` | src/core/basetypes/MCJSONParser.cpp:583-586 | what the reader holds is what was written exactly when every number is a `long long`: other types are read as that type, and numbers above its range as its maximum |
| `JsonParser.JSONParser.SkipBlanks` | src/core/basetypes/MCJSONParser.cpp:103-119 | the position after the blanks |
| `JsonParser.JSONParser.ReadEscape` | src/core/basetypes/MCJSONParser.cpp:347-497 | what follows a backslash: letters, one to three octal digits, up to four or two hexadecimal digits, or the backslash itself |
| `JsonParser.JSONParser.ParseString` | src/core/basetypes/MCJSONParser.cpp:312-531 | in place, the position and the result move as `JsonSyntax.ParseString` says, or stay |
| `JsonParser.JSONParser.ParseFloat` | src/core/basetypes/MCJSONParser.cpp:561-595 | an integer where `strtoll` stops where `strtod` does, a double otherwise, within fifty units |
| `JsonParser.JSONParser.ParseArray` | src/core/basetypes/MCJSONParser.cpp:235-294 | in place, by parsers of its own for the elements, as `JsonSyntax.ParseArray` says |
| `JsonParser.JSONParser.ParseDictionary` | src/core/basetypes/MCJSONParser.cpp:121-204 | in place, by parsers of its own for keys and values, as `JsonSyntax.ParseDictionary` says |
| `JsonParser.JSONParser.Parse` | src/core/basetypes/MCJSONParser.cpp:68-85 | in place, after the blanks, the first of the six forms that is there |
| `JsonPrinter.JSStringFromString` | src/core/basetypes/MCJSONParser.cpp:644-728 | the characters between the quotes, each spelled its way, so that every unit is a printable character of ASCII |
| `JsonPrinter.ShownIs` | src/core/basetypes/MCJSONParser.cpp:644-728 | printable ASCII but for quote, slash, backslash and grave accent stands for itself, the first three follow a backslash, and any other unit is a backslash, `u` and its four lower-case hexadecimal digits |
| `JsonPrinter.PrintedIsAscii` | src/core/basetypes/MCJSONParser.cpp:730-829 | no printed text holds a control character, a line break or a unit above ASCII |
| `JsonPrinter.DecimalIs` | src/core/basetypes/MCJSONParser.cpp:739-777 | numbers are printed without plus sign and leading zeros |
| `JsonPrinter.AppendStringFromObject` | src/core/basetypes/MCJSONParser.cpp:730-829 | what is appended is the text of the object without blanks, every item and every entry once |
| `JsonPrinter.ReadObject` | src/core/basetypes/MCJSONParser.cpp:611-626 | a new parser reads the object of a text |
| `JsonPrinter.PrintedReadsBackIff` | src/core/basetypes/MCJSONParser.cpp:611-829 | printing and reading gives an equal object exactly when it is not a boolean or null by itself and all its numbers are `long long` values, since equality of values compares their types (src/core/basetypes/MCValue.cpp, lines 84 to 100) |
| `Calendar.MonthLengths` | src/core/basetypes/MCLibetpan.cpp:180-206 | the twelve lengths of the months |
| `Calendar.DaysFollow` | src/core/basetypes/MCLibetpan.cpp:180-206 | days are counted on from 1 January 1970, day by day, month by month and year by year |
| `Calendar.YearLength` | src/core/basetypes/MCLibetpan.cpp:180-206 | a year has 366 days exactly if it is a leap year of the Gregorian calendar |
| `Calendar.TmCompOrders` | src/core/basetypes/MCLibetpan.cpp:167-178 | comparing the fields of two broken-down times compares the times, over the whole Gregorian calendar |
| `Calendar.GmTimeOfTime` | src/core/basetypes/MCLibetpan.cpp:180-206 | every civil time is what `gmtime_r` yields for the time it names, and no other |
| `Calendar.TimeOfGmTime` | src/core/basetypes/MCLibetpan.cpp:180-206 | what `gmtime_r` yields is civil and names its time |
| `Calendar.TwoThousandYearsLater` | src/core/basetypes/MCLibetpan.cpp:39-42 | adding 2000 to a year moves a time by exactly 730485 days |
| `Timestamps.CountBits` | src/core/basetypes/MCLibetpan.cpp:196-197 | the shifts of a signed 64-bit one turn negative after 63 |
| `Timestamps.Mkgmtime` | src/core/basetypes/MCLibetpan.cpp:180-222 | the bitwise search returns the time the fields name, seconds put aside, if its minute is civil and within 2^40 seconds of 1970, and -1 exactly otherwise, with at most 42 comparisons |
| `Timestamps.FoundAgain` | src/core/basetypes/MCLibetpan.cpp:180-222 | it inverts `gmtime_r` exactly within that reach |
| `Timestamps.ZoneUnpacks` | src/core/basetypes/MCLibetpan.cpp:49-57 | hours and minutes packed as a zone (section 3.3 of RFC 5322) are unpacked to the same offset, for either sign |
| `Timestamps.ZoneMeans` | src/core/basetypes/MCLibetpan.cpp:49-57 | a zone of hours and minutes is that much ahead of universal time if it is positive, and behind it if it is negative, in both directions |
| `Timestamps.TimestampMeans` | src/core/basetypes/MCLibetpan.cpp:27-60 | a civil date names the second of its local clock, January being month 1 and years below 1000 counting from 2000, less what its zone is ahead |
| `Timestamps.DateMeans` | src/core/basetypes/MCLibetpan.cpp:62-94 | the date of a time is civil, shows the second of the local clock, and has the offset in minutes as its zone |
| `Timestamps.TimestampFromDate` | src/core/basetypes/MCLibetpan.cpp:27-60 | the time of the fields, with the century completed, less the offset of the zone |
| `Timestamps.DateFromTimestamp` | src/core/basetypes/MCLibetpan.cpp:62-94 | the local fields, with the offset between local and universal time as the zone |
| `Timestamps.ThroughDateMoves` | src/core/basetypes/MCLibetpan.cpp:27-94 | a time that goes through a date moves by the part of its offset below a minute, and by 2000 years if its local year is below 1000 |
| `Timestamps.ThroughDateIff` | src/core/basetypes/MCLibetpan.cpp:27-94 | so it comes back, with an offset of less than 2^31 seconds, exactly when the offset is a whole number of minutes and the local year is at least 1000 |
| `Md5.Counts` | src/core/basetypes/MCMD5.cpp:146-149 | the two words, with the carry as it is taken, count bits modulo 2^64 |
| `Md5.InitMeans` | src/core/basetypes/MCMD5.cpp:133-141 | the first state is the sixteen bytes of section 3.3 of RFC 1321 |
| `Md5.WordBytesMean` | src/core/basetypes/MCMD5.cpp:200-205 | words are stored low-order byte first |
| `Md5.LengthBytesMean` | src/core/basetypes/MCMD5.cpp:200-201 | the length field is the number of bits modulo 2^64, low-order byte first |
| `Md5.PaddedIs` | src/core/basetypes/MCMD5.cpp:179-203 | the message, 0x80, as few zeros as it takes, and the length make whole blocks (sections 3.1 and 3.2 of RFC 1321) |
| `Md5.StateBytesMean` | src/core/basetypes/MCMD5.cpp:204-205 | the digest shows the four words in order, each low-order byte first |
| `Md5.FoldAppends` | src/core/basetypes/MCMD5.cpp:168-174 | transforming blocks one after another is a fold that can be cut anywhere |
| `Md5.PaddedDiffer` | src/core/basetypes/MCMD5.cpp:184-201 | messages below 2^61 bytes that are padded alike are alike |
| `Md5.MD5Context.Update` | src/core/basetypes/MCMD5.cpp:143-177 | however a message is split, each update leaves the context where the whole message so far leaves it |
| `Md5.MD5Context.Pad` | src/core/basetypes/MCMD5.cpp:184-203 | the mark, the zeros and the length, in one block or two, complete the padding of sections 3.1 and 3.2 of RFC 1321 |
| `Md5.MD5Context.Final` | src/core/basetypes/MCMD5.cpp:179-207 | the digest is that of the fold over the padded message, and the context is cleared |
| `Md5.Md5Data` | src/core/basetypes/MCMD5.cpp:209-222 | the digest of any data |
| `HashMaps.MoveChain` | src/core/basetypes/MCHashMap.cpp:82-91 | the cells of a chain are relinked one by one in front of the buckets of their hashes, and keep their values |
| `HashMaps.Rehash` | src/core/basetypes/MCHashMap.cpp:71-95 | a table of another size holds the same cells, each in the bucket of its hash |
| `HashMaps.HashMap.Allocate` | src/core/basetypes/MCHashMap.cpp:71-95 | the finite map stays the same |
| `HashMaps.HashMap.Find` | src/core/basetypes/MCHashMap.cpp:142-156 | the cell of a key is found exactly when the map has the key |
| `HashMaps.HashMap.SetObjectForKey` | src/core/basetypes/MCHashMap.cpp:133-166 | the map gains the entry; a key that was there keeps its first object and takes the new value; the count stays within three times the buckets plus one |
| `HashMaps.HashMap.RemoveObjectForKey` | src/core/basetypes/MCHashMap.cpp:168-200 | the map loses the key, if it had it, and nothing else; a null key removes nothing |
| `HashMaps.HashMap.ObjectForKey` | src/core/basetypes/MCHashMap.cpp:202-222 | the value of the key in the map, or nothing |
| `HashMaps.HashMap.RemoveAllObjects` | src/core/basetypes/MCHashMap.cpp:276-291 | the map becomes empty |
| `HashMaps.HashMap.IteratorBegin` | src/core/basetypes/MCHashMap.cpp:224-237 | the first of the cells, bucket by bucket, or none in an empty table |
| `HashMaps.HashMap.IteratorNext` | src/core/basetypes/MCHashMap.cpp:239-256 | the cell that comes next, in the chain or in the next bucket that is not empty |
| `HashMaps.HashMap.AllKeys` | src/core/basetypes/MCHashMap.cpp:258-265 | the keys of the cells in the order of iteration |
| `HashMaps.HashMap.AllValues` | src/core/basetypes/MCHashMap.cpp:267-274 | the values of the cells in the same order |
| `HashMaps.IterationLists` | src/core/basetypes/MCHashMap.cpp:258-274 | these list every entry of the map once, keys of distinct identity with their values in matching order |
| `ConnectionPool.MinQueue` | src/async/imap/MCIMAPAsyncSession.cpp:367-389 | one of the matching connections with the fewest operations, or none if none matches |
| `ConnectionPool.PrefersItsIdleConnection` | src/async/imap/MCIMAPAsyncSession.cpp:295-300 | an operation on a folder, urgent or not, goes to an idle connection last given that folder if there is one |
| `ConnectionPool.WithoutFolderMeans` | src/async/imap/MCIMAPAsyncSession.cpp:338-365 | an operation without a folder goes to a least busy connection never given one, else to a least busy one on INBOX, else to whatever is available |
| `ConnectionPool.OnFolderMeans` | src/async/imap/MCIMAPAsyncSession.cpp:287-365 | one on a folder that is not urgent, or may not share it, goes to a least busy connection of the folder, else to a least busy one never given any, else to whatever is available |
| `ConnectionPool.UrgentMeans` | src/async/imap/MCIMAPAsyncSession.cpp:302-316 | an urgent one that may share its folder goes to an idle connection, else to a new one, else where one that is not urgent goes |
| `ConnectionPool.StartedMeans` | src/async/imap/MCIMAPAsyncSession.cpp:287-317 | the operation is last in the queue of the connection chosen, which remembers its folder, and nothing else changes |
| `ConnectionPool.FirstComeFirstServed` | src/async/imap/MCIMAPOperation.cpp:107-114 | in every run a connection finishes its operations in the order in which it was given them |
| `ConnectionPool.PoolIsBounded` | src/async/imap/MCIMAPAsyncSession.cpp:319-336 | in every run there are at most as many connections as allowed, and as operations were outstanding at once |
| `ConnectionPool.StartAddsOne` | src/async/imap/MCIMAPAsyncSession.cpp:287-317 | every operation is given to some connection |
| `ConnectionPool.LastFoldersStayDistinct` | src/async/imap/MCIMAPAsyncSession.cpp:287-365 | in every run without concurrent access no two connections were last given the same folder, nor two of them none |
| `ConnectionPool.UrgentDoesNotWait` | src/async/imap/MCIMAPAsyncSession.cpp:302-310 | with concurrent access an urgent operation on a folder gets an idle connection, unless all are busy and no more are allowed |
| `ConnectionPool.StaysWithFolder` | src/async/imap/MCIMAPAsyncSession.cpp:312-315 | any other operation joins the least busy connection of its folder, if it has one |
| `ConnectionPool.TakesOver` | src/async/imap/MCIMAPAsyncSession.cpp:363-365 | with all connections busy and no more allowed, a folder takes over another one's connection, whose next operation then goes elsewhere |
| `ConnectionPool.OneFolderOneConnectionIff` | src/async/imap/MCIMAPAsyncSession.cpp:287-365 | so no run has one folder on two connections exactly with a limit of one, or with no limit and no concurrent access |
| `AsyncSession.IMAPAsyncSession.SessionWithMinQueue` | src/async/imap/MCIMAPAsyncSession.cpp:367-389 | the loop finds the first matching connection with the fewest operations |
| `AsyncSession.IMAPAsyncSession.AvailableSession` | src/async/imap/MCIMAPAsyncSession.cpp:319-336 | an idle connection, a new one added in place while allowed, or the least busy one |
| `AsyncSession.IMAPAsyncSession.MatchingSessionForFolder` | src/async/imap/MCIMAPAsyncSession.cpp:338-365 | a connection of the folder, one without folder (or on INBOX), or whatever is available |
| `AsyncSession.IMAPAsyncSession.SessionForFolder` | src/async/imap/MCIMAPAsyncSession.cpp:287-317 | the connection chosen, with its last folder set in place |
| `AsyncSession.IMAPAsyncSession.Start` | src/async/imap/MCIMAPOperation.cpp:107-114 | an operation goes to the connection it is bound to, or the connections become those of `ConnectionPool.Started`; for their life this is the step of running an operation, after one is opened if need be |
| `ConnectionLifecycle.RunIsSound` | src/async/imap/MCIMAPAsyncConnection.cpp:284-347 | in every run: one pending delayed call exactly when the flag says so, one retain of the owner for each scheduled disconnection and each running queue, signals that alternate and tell whether some queue runs, and no open connection without a thread or a scheduled disconnection |
| `ConnectionLifecycle.StateChangedTells` | src/async/imap/MCIMAPAsyncSession.cpp:903-925 | telling only changes keeps start and stop alternating |
| `ConnectionLifecycle.RunsChanges` | src/async/imap/MCIMAPAsyncConnection.cpp:284-296 | running an operation gives up a scheduled disconnection with its retain, and starts the queue if it was stopped |
| `ConnectionLifecycle.QueueStopsChanges` | src/async/imap/MCIMAPAsyncConnection.cpp:66-73 | a queue that stops lets go of the owner and schedules one disconnection of a connected stream |
| `ConnectionLifecycle.DelayEndsMakesBusy` | src/async/imap/MCIMAPAsyncConnection.cpp:327-335 | a delayed call that is due queues one operation more and starts the queue if it was stopped |
| `ConnectionLifecycle.DelayEndsIsSound` | src/async/imap/MCIMAPAsyncConnection.cpp:327-335 | a delayed call that is due keeps all this while it starts the operation that disconnects |
| `AsyncSession.IMAPAsyncSession.OperationRunningStateChanged` | src/async/imap/MCIMAPAsyncSession.cpp:903-925 | in place, the callback is told exactly when whether some queue runs has changed |
| `AsyncSession.IMAPAsyncConnection.QueueStartRunning` | src/async/imap/MCIMAPAsyncConnection.cpp:58-64 | the callback of a starting queue, in place, before the owner is retained |
| `AsyncSession.IMAPAsyncConnection.QueueStoppedRunning` | src/async/imap/MCIMAPAsyncConnection.cpp:66-73 | the callback of a stopped queue, in place, in the order of the original |
| `AsyncSession.IMAPAsyncConnection.RunOperation` | src/async/imap/MCIMAPAsyncConnection.cpp:284-296 | in place, the step `ConnectionLifecycle.Runs`, with the operation last in the queue |
| `AsyncSession.IMAPAsyncConnection.TryAutomaticDisconnect` | src/async/imap/MCIMAPAsyncConnection.cpp:298-325 | in place, the step `ConnectionLifecycle.Schedules`, with the retain before the release |
| `AsyncSession.IMAPAsyncConnection.TryAutomaticDisconnectAfterDelay` | src/async/imap/MCIMAPAsyncConnection.cpp:327-335 | in place, the step `ConnectionLifecycle.DelayEnds`, and for the pool the bound operation that disconnects |
| `AsyncSession.IMAPAsyncConnection.StoppedOnMainThread` | src/core/basetypes/MCOperationQueue.cpp:228-246 | operations that came while the thread stopped start it again |
| `PartNumbering.QueueIsLevelOrder` | src/core/abstract/MCAbstractPart.cpp:313-335 | a queue that takes in the children of each part passes the tree level by level |
| `PartNumbering.LevelsOnce` | src/core/abstract/MCAbstractPart.cpp:313-335 | every part of a tree of distinct parts is passed once |
| `PartNumbering.DecimalMeans` | src/core/abstract/MCAbstractPart.cpp:323-326 | the numbers are decimal digits without leading zeros that spell them |
| `PartNumbering.ApplyUniquePartID` | src/core/abstract/MCAbstractPart.cpp:311-337 | the single parts are numbered from 0 in decimal, level by level, and the other parts keep what they had |
| `PartNumbering.PartForUniqueID` | src/core/abstract/MCAbstractPart.cpp:288-296 | the first part with a number, depth first, through messages to their main part |
| `PartNumbering.PartAmong` | src/core/abstract/MCAbstractMultipart.cpp:87-96 | the loop over the parts of a multipart returns the first that is found |
| `PartNumbering.EachIsFound` | src/core/abstract/MCAbstractMultipart.cpp:87-96 | after the numbering, the search for each number returns precisely the part that has it |
| `PartNumbering.NoOtherIsFound` | src/core/abstract/MCAbstractMessagePart.cpp:76-79 | and it finds nothing for any other name |
| `ReplyAll.ContainsSenderIff` | src/core/abstract/MCMessageHeader.cpp:1002-1017 | a message is an own one exactly if its author or its sender has one of the given mailboxes, ignoring case |
| `ReplyAll.OthersToMeans` | src/core/abstract/MCMessageHeader.cpp:1082-1100 | To of a reply to someone else is its Reply-To if that names anybody, else its author, and is missing only when both are |
| `ReplyAll.OwnToMeans` | src/core/abstract/MCMessageHeader.cpp:1019-1077 | everybody in To of a reply to an own message is a recipient other than the author, or in Reply-To, or the author where there is nobody else; all of Reply-To is in To where the author was a recipient |
| `ReplyAll.KeptIsFilter` | src/core/abstract/MCMessageHeader.cpp:1103-1127 | an address goes into Cc, in order, exactly if its mailbox was not seen and none before it has the same one |
| `ReplyAll.CcIsClean` | src/core/abstract/MCMessageHeader.cpp:984-1147 | the mailboxes in Cc are distinct ignoring case and none is in To, in both branches; without replying to all there are none |
| `ReplyAll.NobodyIsLost` | src/core/abstract/MCMessageHeader.cpp:1079-1135 | in a reply to someone else, Cc holds exactly the recipients that are neither excluded nor in To |
| `ReplyAll.OwnRecipientsStay` | src/core/abstract/MCMessageHeader.cpp:1019-1078 | in a reply to an own message, every recipient but its author is in To or Cc |
| `ReplyAll.NobodyToReplyToIff` | src/core/abstract/MCMessageHeader.cpp:1074-1077 | the reply to an own message has no recipient at all exactly when it was sent to its author alone: the fallback to the author is not reached then |
| `ReplyAll.LacksAuthorIff` | src/core/abstract/MCMessageHeader.cpp:1074-1077 | the fallback puts a null author into To exactly for an own message without From and To and, when all are replied to, without Cc |
| `ReplyAll.KeptHolds` | src/core/abstract/MCMessageHeader.cpp:1103-1127 | going through addresses with a set of those added keeps one of each mailbox that was not seen |
| `ReplyAll.HasSender` | src/core/abstract/MCMessageHeader.cpp:1002-1017 | whether the author or the sender is among the given addresses, ignoring case |
| `ReplyAll.RecipientWithReplyAll` | src/core/abstract/MCMessageHeader.cpp:984-1147 | the loops, the set and the flags yield the two fields, each when it is asked for |
| `ReplyAll.ReplyRecipients` | src/core/abstract/MCMessageHeader.cpp:1184-1185 | the two calls together: To, and a Cc that is clean against it |
| `Base64.BasisIsAlphabet` | src/core/basetypes/MCBase64.c:26-27 | the first table lists the alphabet of section 4 of RFC 4648 in its order |
| `Base64.SixBitsEach` | src/core/basetypes/MCBase64.c:47-50 | the 24 bits of three bytes are those of the four indices |
| `Base64.EncodeMeans` | src/core/basetypes/MCBase64.c:29-66 | the text of any bytes, group by group, with `=` where bytes are missing |
| `Base64.DecodesIff` | src/core/basetypes/MCBase64.c:84-104 | groups decode exactly when every character is in the alphabet or is padding in the third or the fourth place |
| `Base64.TablesAgree` | src/core/basetypes/MCBase64.c:15-27 | the two tables are inverse on the alphabet of section 4 of RFC 4648, without padding and blanks |
| `Base64.BitsOfBytes` | src/core/basetypes/MCBase64.c:47-50 | splitting three bytes into four indices and joining them again loses no bit |
| `Base64.DecodesEncoded` | src/core/basetypes/MCBase64.c:29-114 | decoding an encoded byte string gives it back, and encoded texts are canonical |
| `Base64.EncodesDecoded` | src/core/basetypes/MCBase64.c:68-114 | a canonical text decodes, and encoding the result gives the text |
| `Base64.CanonicalIff` | src/core/basetypes/MCBase64.c:29-66 | the canonical texts are exactly the encodings |
| `Base64.MCEncodeBase64` | src/core/basetypes/MCBase64.c:29-66 | the buffer of the computed size holds exactly the text and a zero |
| `Base64.MCDecodeBase64` | src/core/basetypes/MCBase64.c:68-114 | nothing for a group that is not valid, else the bytes and a zero inside a buffer of the computed size |
| `Base64.DependsOnTextIff` | src/core/basetypes/MCBase64.c:81-84 | what is decoded depends on the text alone, whatever lies behind it, exactly for lengths below 4 or of remainder 2 or 3 modulo 4 |
| `Base64.DecodedIs` | src/core/basetypes/MCBase64.c:81-84 | exactly the whole groups of the text are decoded, and after a plus and a blank as many groups as if they were not there |

## Left out

- Networks, sessions and operations, the ActiveSync, Gmail and JMAP classes, and the Java and Objective-C bridges: glue around libraries that are not part of this model.
- libetpan, ICU, Tidy, iconv and CoreFoundation: header and MIME parsing, charset detection and the lower case of strings; `ReplyAll` takes the lower case as a function and compares ignoring case through it.
- QuickSort.QsortR: elements of an array stand for stretches of bytes, so the choice between swapping words and swapping bytes is not modelled.
- IndexSet.IndexSet.AddIndexSet: for a set that is added to itself the resulting set is stated, not its array; `removeIndexSet`, `isEqual` as a method, serialization, and `rightRangeIndexForIndex`, which nothing calls, are not modelled.
- IndexSetIterators.ForEach: the set does not change while it is iterated; on a range of 2^32 elements or more the loop does not end, which `IndexSetIterators.LeavesRangeIff` states.
- Utf8to16.ConvertUTF8toUTF16: in lenient mode the target is at least as long as the source, as callers make it; with less room the stores that replace a subpart are not checked.
- Utf8to32.ConvertUTF8toUTF32Impl: the same restriction in lenient mode.
- JsonPrinter.AppendStringFromObject: no floats and doubles, because `%g` is not modelled; a double that is read is known by its text only.
- JsonParser.JSONParser.ParseFloat: `strtod` and `strtoll` of the C library are modelled by how much they convert and, for integers, to what; the value of a double is not modelled, nor text that cannot be converted to UTF-8.
- JsonPrinter.PrintedReadsBackIff: `long` has 64 bits, and the order of the entries of a dictionary is any order.
- Timestamps.Mkgmtime: `gmtime_r` is the proleptic Gregorian calendar without leap seconds; fields so large that their differences overflow an `int` are not modelled.
- Timestamps.DateFromTimestamp: local time is universal time plus an offset that is a parameter; zones whose arithmetic overflows an `int` are not modelled; the two IMAP functions at `src/core/basetypes/MCLibetpan.cpp` lines 96 to 163 have the same bodies over another structure and are not written out again.
- Md5.MD5Context.Update: the transform of a block is a parameter, the machine is little-endian, and a single update is below 2^32 bytes, which is the range of its length.
- HashMaps.HashMap.SetObjectForKey: the `copy` of a key is equal to the key; reference counts of keys and values, `isEqual` of whole maps and serialization are not modelled.
- AsyncSession.IMAPAsyncSession.SessionWithMinQueue: a queue does not change while connections are compared; in the original its thread may take an operation out between two reads of the count.
- ConnectionPool.PoolIsBounded: the settings are fixed during a run, and no operation is started twice, so the only ones bound to a connection beforehand are those that disconnect it.
- ConnectionLifecycle.RunIsSound: the session has its callback from the start; the steps of the main thread are atomic, the thread of a queue is seen only by the events it causes, and the delay itself has no length.
- PartNumbering.ApplyUniquePartID: the tree does not change between numbering and search, and no part is missing below a message or a multipart.
- ReplyAll.RecipientWithReplyAll: every address has a mailbox; the headers of `ReplyAll.LacksAuthorIff`, on which the original dereferences a null reference, have no result.
- ReplyAll.ReplyRecipients: the same headers.
- Base64.MCDecodeBase64: the memory is readable as far as the loop reads, which `Base64.DependsOnTextIff` shows to be past the text for some lengths behind a leading plus and blank.
- Uuencode and stream decoding, plain containers, copying and serialization, file access, logging and failing allocations: easy members, or behaviour of libraries that are not part of this model.
