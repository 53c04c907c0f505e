# Verified models of a C foundation library

This project models seven parts of the library and proves what they promise. Functions and lemmas say what an
operation means; methods and classes follow the C code, loop by loop, and are proved against that meaning.
`dafny verify dfyconfig.toml` checks everything.

## Binary property lists (`CFBinaryPList.c`)

A binary property list is a header, tagged big-endian objects, a table of their offsets and a trailer.

* `Bytes`, `FileFormat`, `AcceptedFormat`: integers of 1 to 8 bytes, the trailer and the offset table; the validator accepts
  a byte string exactly when the sizes add up, every table entry points into the object table, and so does the top object's;
  that is also spelled out over the bytes alone.
* `ObjectFormat`: the formats of objects as the source documents them (CFBinaryPList.c:228-254), written down apart from the
  reader, and the proof that the reader takes exactly these. (Fill bytes are documented and not read; of the sizes of real
  numbers only 4 and 8 are.)
* `Objects`, `ObjectGraph`, `Cycles`: the bytes at an offset as a node of a graph, and the meaning of an offset: the value
  that unfolding its references gives, if that ends. It ends exactly when all that is reachable is readable and acyclic.
  A length held in an integer object of 256 bytes or more is read as 0, because the size of an integer is passed on as a
  byte (CFBinaryPList.c:673, 805); the code is followed.
* `ContainerMeanings`: what arrays, sets and dictionaries mean, in terms of their children. Sets are read but never written.
* `Reader`: the recursive parser with its table of finished objects and its path set, which only starts at depth 16.
  Whatever the table holds, it computes the meaning, so parsing with the table and without it agree. It terminates on
  every accepted document; the depth is bounded by the size of the object table.
* `KeySearch`, `KeySearchAgreement`, `WrittenSearch`, `SmallDocuments`, `SearchCounterexamples`: the lookup of a key in the
  bytes, without building the dictionary. It does **not** always agree with the parsed dictionary. For every dictionary that
  parses and every ASCII key the project proves what the lookup gives, and when that is what the dictionary holds. There are two
  causes of failure. The range check of a key string compares the position *after* its last byte with the end of the object table
  (CFBinaryPList.c:963-968), so a key of the same length that ends the table makes the search give up; the writer itself produces
  such files, for instance for a dictionary whose key and value are the same string. And a key whose length is written as an
  integer although it is shorter than 15 is not seen: the search misses it, or, if the same key comes again in the short form,
  takes that one and gives its value instead of the first, which the dictionary holds. All three failures are proved of
  methods that call the reader and the search. In a dictionary that does not parse, a key reference out of range makes the search
  read outside the data; that is an outcome of the model (`Undefined`), with the exact condition under which it is reached.
* `ObjectHeap`, `Flatten`, `Sharing`, `WriteBuffer`, `Encoding`, `WrittenForms`, `Writer`: numbering a shared object graph, and
  streaming it through a fixed buffer in the shortest forms. Strings, numbers, dates and data are listed once; everything
  else once for every way to it.
* `ReadBack`, `FileLayout`, `RoundTrip`: every file that is written is accepted, and is read back as the property list that
  was written, except that 128-bit integers keep only their low half. The loss is modelled (`Lossy`, `Stored`), and a list is
  read back exactly if and only if it has no such integer with a high half.
* `LiteralDocuments`: a file that is written and a document that is read, byte by byte.

## Arrays (`CFArray.c`)

`DequeArray` is the mutable array: a left index into a block of buckets, and one primitive that releases, slides,
re-centres or reallocates. Every edit is one splice of the contents, and retains and releases stay balanced against them.
`ArraySearch` is the binary search over powers of two, `ArraySort` the sort that only exchanges neighbours (it is stable),
`Ordering` what both assume of a comparator.

## UTF-8 (`CFBuiltinConverters.c`)

`Unicode` has the definitions of sections 3 and 4 of RFC 3629 and sections 2.1 and 2.2 of RFC 2781; `Utf8Room`,
`Utf8Encoder`, `Utf8Text`, `Utf8Limits`, `Utf8Decoder`, `Utf8RoundTrip` and `Utf8Examples` relate the conversion loops, with
and without output limits, to them. Three places where the code is not what one would expect are stated exactly: a lone byte 0xA9 is decoded to
U+FFFD; a decoder with room for one more unit consumes a supplementary character without writing it; and the encoder passes
the room that is left on as a 32-bit integer (CFBuiltinConverters.c:934, 985), so that with 4 GiB or more of it left it may
stop at a character for which there is place. Below a limit of 2^32 bytes it never does.

## Binary heaps, bit vectors, preferences, calendars

* `HeapOrder`, `BinaryHeap` (`CFBinaryHeap.c`): sifting by moving a hole; copying and draining sorts.
* `BitBuckets`, `BitVector` (`CFBitVector.c`): the loop over buckets acts on each bit of a range.
* `SearchList`, `Preferences`, `SuiteOrder`, `PreferenceRuns` (`CFApplicationPreferences.c`): a run of operations on
  one application's preferences, looking up through the cache, gives what searching the list of domains gives. Caches of *other* applications
  that search the same domain are not told of a write; when they stay right is stated exactly.
* `CalendarDifference`, `ClampedCalendar` (`CFCalendar.c`): the galloping loop over an arbitrary `add`: what it computes for
  every one, and that this is the largest amount where time is uniform. With months, which are not, January 31 to March 31 is
  two months, although a month and then another leads to March 28.

## Model

| member | source | states |
|---|---|---|
| `Bytes.SizedIntOfBigEndian` | CFBinaryPList.c:673-695 | An integer written with n bytes is read back by the reader's loop. |
| `Bytes.ByteCount` | CFBinaryPList.c:396-413 | The size is the least of 1, 2, 4, 8 whose bytes can hold the count. |
| `Bytes.ComputeByteCount` | CFBinaryPList.c:396-413 | The two loops compute that size. |
| `Bytes.GetSizedInt` | CFBinaryPList.c:673-695 | The loop, whose size is a byte, reads the big-endian integer, keeping its low 64 bits. |
| `PropertyList.LookupIsFirstPair` | CFBinaryPList.c:1384-1399 | A dictionary built from parsed pairs maps a string to the value of the first pair with that key. |
| `PropertyList.MembersStandForValues` | CFBinaryPList.c:1308-1323 | Every value added to a set is a member or equals one, every member is one of the values, and none equals a later one. |
| `PropertyList.DistinctMembersStay` | CFBinaryPList.c:1308-1323 | The members are the values in order if and only if none equals an earlier one. |
| `PropertyList.PairsStandForKeys` | CFBinaryPList.c:1384-1399 | For keys of any kind: the pairs kept are among those added, no key equals a later one, and every key added is kept or equals one that is. |
| `ContainerMeanings.ArrayMeans` | CFBinaryPList.c:1246-1307 | An array is read if and only if its children are, and holds their values in order. |
| `ContainerMeanings.DictionaryMeans` | CFBinaryPList.c:1327-1404 | A dictionary is read if and only if its children are, and those of the first half are no containers. |
| `ContainerMeanings.SetMeans` | CFBinaryPList.c:1246-1325 | A set that can be read holds the values of its children in this sense. |
| `ContainerMeanings.DistinctChildrenAreMembers` | CFBinaryPList.c:1246-1325 | It is the set of its children in order if and only if none equals an earlier one. |
| `LiteralDocuments.ParseSet` | CFBinaryPList.c:1246-1325 | The reader, called on 49 bytes that hold a set of true and 5, gives the set of both if they are not equal. |
| `LiteralDocuments.WriteTrue` | CFBinaryPList.c:418-651 | The writer, called on true, gives these 42 bytes. |
| `PropertyList.AddDistinctPairs` | CFBinaryPList.c:1384-1399 | Pairs with distinct keys are all kept, in order. |
| `FileFormat.TrailerIsSound` | CFBinaryPList.c:715-753 | The checks, with their overflow flags, hold exactly when the sizes of the parts add up to the length of the data. |
| `FileFormat.Document.EntryPosition` | CFBinaryPList.c:758-775 | Every entry of an accepted offset table lies between the objects and the trailer. |
| `FileFormat.OffsetsInRange` | CFBinaryPList.c:758-769 | The scan succeeds exactly when every entry points into the object table. |
| `FileFormat.GetTopLevelInfo` | CFBinaryPList.c:697-787 | Accepts exactly the valid documents, and returns their trailer, top offset and its marker, which lie in the data. |
| `AcceptedFormat.AcceptedIff` | CFBinaryPList.c:697-787 | Over the bytes alone: magic, sizes that add up and can hold what they have to, offsets in front of the table, the top one behind the header. |
| `AcceptedFormat.Accepts` | CFBinaryPList.c:697-787 | The validator accepts exactly these byte strings. |
| `FileFormat.GetOffsetOfRefAt` | CFBinaryPList.c:812-826 | A reference resolves through the table; one that is out of range, to the sentinel; no byte outside the data is read. |
| `Objects.ReadIntIsRightIff` | CFBinaryPList.c:795-810 | A length read from an integer object is what its bytes say, modulo 2^64, if and only if there are fewer than 256 of them or that is 0: a size of 256 or more wraps to 0, and so does the length. |
| `ObjectFormat.SizedIntIsValue` | CFBinaryPList.c:673-695 | What the reader makes of any number of bytes is the big-endian number modulo 2^64. |
| `ObjectFormat.ReadIntIff` | CFBinaryPList.c:795-810 | A length is read from exactly the integer objects inside the table; those of 256 bytes or more give 0. |
| `ObjectFormat.LeadIff` | CFBinaryPList.c:1135-1146 | A count is read from exactly the documented forms: in the marker, or 1111 and an integer. |
| `ObjectFormat.LeafIff` | CFBinaryPList.c:228-254 | A value without references is read at an offset if and only if bytes of its documented form stand there, inside the table. |
| `ObjectFormat.ContainerIff` | CFBinaryPList.c:250-253 | A container is read if and only if a marker with a count stands there, and as many references (twice as many in a dictionary) fit. |
| `ObjectFormat.ReferenceIs` | CFBinaryPList.c:812-826 | A reference leads to the table entry with its number, and to 2^64 - 1 if it is out of range or stands outside the table. |
| `Objects.HeaderAt` | CFBinaryPList.c:1019-1267 | What is read at an offset lies inside the object table, references of containers included. |
| `Reader.ReadHeader` | CFBinaryPList.c:1019-1257 | The switch over the marker gives the node of the object graph. |
| `ObjectGraph.MeaningIs` | CFBinaryPList.c:1005-1408 | The value found by unfolding references to any sufficient depth is the meaning of the offset. |
| `ObjectGraph.MeaningUnfolds` | CFBinaryPList.c:1245-1404 | A container means what is built from the meanings of its children, or nothing if one is bad. |
| `Cycles.CycleNeverParses` | CFBinaryPList.c:1016-1017 | An object that contains itself has no value at any depth. |
| `Cycles.ParsesIffAcyclic` | CFBinaryPList.c:1005-1408 | An object has a meaning if and only if everything it reaches is sound and no path from it meets an offset twice. |
| `Reader.ObjectParsesIffAcyclic` | CFBinaryPList.c:1005-1408 | The same for the graph of any document. |
| `Reader.DepthIsBounded` | CFBinaryPList.c:1268-1272 | The depth never exceeds 16 plus the size of the object table. |
| `Reader.AncestorNeverParses` | CFBinaryPList.c:1016-1017 | Meeting an ancestor again is rightly a failure. |
| `Reader.TrackOneMore` | CFBinaryPList.c:1268-1290 | Entering a container adds exactly its offset to the tracked ancestors, which stay distinct. |
| `Reader.CreateObject` | CFBinaryPList.c:1005-1408 | With any correct table and path set, the result is the meaning of the offset; the table stays correct, and a success leaves the path set as it was. |
| `Reader.CreateKids` | CFBinaryPList.c:1273-1300 | The loop over references gives the meanings of all children, the keys being primitive, or fails. |
| `Reader.TryParse` | CFBinaryPList.c:1415-1443 | Accepted data is parsed to the meaning of its top object; the rest is refused. |
| `KeySearch.GetOffsetForValueFromArray` | CFBinaryPList.c:828-868 | The offset of an element of an array, within the table, or nothing. |
| `KeySearch.ArrayElement` | CFBinaryPList.c:828-868 | Parsing at that offset gives the element of the parsed array. |
| `KeySearch.UndefinedIff` | CFBinaryPList.c:943-945 | The search leaves the data if and only if it reaches a key reference out of range, no key before it having matched or ended it. |
| `KeySearch.GetOffsetForValueFromDictionary` | CFBinaryPList.c:872-999 | For any primitive key and any accepted document, the linear search with its fast comparison and its fallback gives the key and value offsets, nothing, or the undefined outcome, as specified key by key. |
| `KeySearchAgreement.TestKeyMeans` | CFBinaryPList.c:943-993 | One comparison with an ASCII key, in terms of what the key object means and how it is written. |
| `KeySearchAgreement.SearchIsFirstSeen` | CFBinaryPList.c:943-996 | The search gives the first key object that it takes for the string, and nothing if that one or an earlier one ends it. |
| `KeySearchAgreement.KeysAndValues` | CFBinaryPList.c:885-925 | The key and value offsets of the search are the children of the dictionary's node. |
| `KeySearchAgreement.ParsedKeysResolve` | CFBinaryPList.c:943-945 | In a dictionary that parses, no key reference is out of range. |
| `KeySearchAgreement.ParsedPairs` | CFBinaryPList.c:1358-1399 | The offsets of the keys and values of a dictionary mean the pairs from which it was built. |
| `KeySearchAgreement.DictionaryHolds` | CFBinaryPList.c:1384-1399 | The parsed dictionary holds under a string what the first key offset meaning it stands for. |
| `KeySearchAgreement.SearchResultIs` | CFBinaryPList.c:872-999 | The result of the search of any dictionary that parses: it stays in the data, and which offsets it gives, if any. |
| `KeySearchAgreement.SearchAgreesIff` | CFBinaryPList.c:872-999 | For any dictionary that parses and any ASCII key, the result is what the dictionary holds (its value, or nothing) if and only if, should the key be there, the search sees one, none up to that one ends it, and the value of that one is the value of the first. |
| `KeySearchAgreement.SearchAgreesOnceIff` | CFBinaryPList.c:872-999 | If the key is not there twice: if and only if it is not in the long form and neither it nor an earlier key of its length ends the object table. |
| `KeySearchAgreement.FindValue` | CFBinaryPList.c:872-999 | The search, and the parser called where it finds the value, give what the dictionary holds, under exactly that condition; a key of 16 or more characters that gives out no C string is always found. |
| `WrittenSearch.WrittenKeysOccurOnce` | CFBinaryPList.c:565-586 | A written dictionary has no key twice. |
| `WrittenSearch.WrittenSearchAgreesIff` | CFBinaryPList.c:872-999 | In a written file the result is what the dictionary holds if and only if no key up to the matching one is an ASCII string of that length with the last number. |
| `SearchCounterexamples.SharedKeyIsNotFound` | CFBinaryPList.c:963-968 | The search of a file of the writer whose key is its last object gives nothing. |
| `SearchCounterexamples.SharedKeyIsMissed` | CFBinaryPList.c:963-968 | Writer, reader and search, called one after the other on that dictionary: the reader gives a dictionary that holds the key, the search nothing. |
| `SearchCounterexamples.LongFormKeyIsNotFound` | CFBinaryPList.c:947-963 | The search for a short key whose length is an integer object gives nothing. |
| `SearchCounterexamples.LongFormKeyIsMissed` | CFBinaryPList.c:947-963 | Reader and search, called on such an accepted document: the dictionary holds the key, the search gives nothing. |
| `SearchCounterexamples.DuplicateIsMistaken` | CFBinaryPList.c:947-963 | In any document with such a key and then the same one in the short form, the dictionary holds the first value and the search gives the offsets of the second pair. |
| `SearchCounterexamples.DuplicateGivesOther` | CFBinaryPList.c:947-993 | Reader and search, called on such an accepted document: the dictionary holds true, the value found by the search is false. |
| `SmallDocuments.SmallIsValid` | CFBinaryPList.c:697-787 | A document of a few bytes is valid if its offsets are those of objects; its offsets and references resolve as written. |
| `SmallDocuments.LongStringAt` | CFBinaryPList.c:1161-1186 | A one-character string object in the long form, and what it means. |
| `SmallDocuments.ShortStringAt` | CFBinaryPList.c:1161-1186 | The same in the short form. |
| `WrittenForms.LeadIsShort` | CFBinaryPList.c:553-557 | A count below 15 is written in the marker, any other as an integer of the least of 1, 2, 4 and 8 bytes. |
| `WrittenForms.LeavesAreShort` | CFBinaryPList.c:305-345 | Integers and UIDs take the least size, and a string one byte a character if and only if it is ASCII. |
| `WrittenForms.SizesAreLeast` | CFBinaryPList.c:461-465 | So do references, for the number of objects, and offsets, for the end of the objects. |
| `WriteBuffer.Buffer.Write` | CFBinaryPList.c:205-221 | Stream and buffer together grow by exactly the bytes given, however they straddle the buffer. |
| `WriteBuffer.Buffer.Flush` | CFBinaryPList.c:223-226 | Everything is in the stream and the buffer is empty. |
| `Flatten.FlattenKeepsInv` | CFBinaryPList.c:349-392 | Numbers are never reassigned, the list only grows, and every number is that of its object. |
| `Flatten.FlattenIsComplete` | CFBinaryPList.c:349-392 | Every reachable object has a number, below the length of the list and leading back to it; the root has number 0. |
| `Flatten.FlattenListsReachable` | CFBinaryPList.c:349-392 | Only reachable objects are listed. |
| `Sharing.ListedAsOftenAs` | CFBinaryPList.c:349-392 | A reachable string, number, date or data object is listed once, any other object once for every way from the root to it. |
| `Flatten.FlatLists.FlattenPlist` | CFBinaryPList.c:349-392 | The recursive method updates the three collections as specified. |
| `Writer.AppendInt` | CFBinaryPList.c:305-326 | An integer object in the least of four sizes. |
| `Writer.AppendUid` | CFBinaryPList.c:328-345 | A UID object. |
| `Writer.AppendRefs` | CFBinaryPList.c:578-604 | The references of a container in the common width, from 32-bit numbers. |
| `Writer.AppendObject` | CFBinaryPList.c:466-619 | The bytes of one object, or failure exactly for null and the types that cannot be written. |
| `Writer.RefusedIff` | CFBinaryPList.c:466-619 | The list holds an object that cannot be written if and only if the root reaches null or an object of another type. |
| `Writer.WriteObjects` | CFBinaryPList.c:466-621 | All objects in order, each offset being the number of bytes before it. |
| `Writer.FinishFile` | CFBinaryPList.c:622-650 | Offset table, trailer and the length of the file. |
| `Writer.BinaryPlistWrite` | CFBinaryPList.c:418-651 | The stream receives the file of the flattened list; 0 is returned exactly if the root reaches null or an object that is no property list. |
| `ReadBack.IntIsReadBack` | CFBinaryPList.c:305-326 | A written integer object is read as a length. |
| `ReadBack.LengthIsReadBack` | CFBinaryPList.c:553-557 | A marker with its length is read back, in the short and the long form. |
| `ReadBack.WideInteger` | CFBinaryPList.c:1056-1063 | Reading sixteen bytes keeps the low half of the integer. |
| `ReadBack.SimpleIsReadBack` | CFBinaryPList.c:1028-1243 | Every written leaf is read back as itself, but for the high half of 128-bit integers. |
| `FileLayout.TrailerIsReadBack` | CFBinaryPList.c:461-465 | The trailer that is found is the one that was written. |
| `FileLayout.OffsetIsReadBack` | CFBinaryPList.c:624-632 | Entry i of the table is the offset of object i. |
| `FileLayout.WrittenFileIsValid` | CFBinaryPList.c:624-638 | Every file of the writer is accepted, with top offset 8. |
| `FileLayout.ObjectIsHeld` | CFBinaryPList.c:466-468 | The bytes of object i stand where the table says. |
| `RoundTrip.RefsAreReadBack` | CFBinaryPList.c:578-604 | The references of a written container resolve to the offsets of its children. |
| `RoundTrip.ContainerIsReadBack` | CFBinaryPList.c:565-605 | A written container is read as the node with those children. |
| `RoundTrip.ObjectMeans` | CFBinaryPList.c:1005-1408 | Every object of a written file means, at its offset, what it stands for, shared or not. |
| `RoundTrip.StoredIsExactIff` | CFBinaryPList.c:1057-1063 | Nothing is lost in a file if and only if there is no 128-bit integer with a high half. |
| `RoundTrip.WrittenReadsBack` | CFBinaryPList.c:418-651 | The file of a storable acyclic object graph is accepted and means the property list of its root. |
| `RoundTrip.WriteThenParse` | CFBinaryPList.c:418-651 | The writer and then the reader, called on a graph of arrays, dictionaries with distinct simple keys, booleans, numbers, dates, data, strings and UIDs, give that property list. |
| `DequeArray.Flsl` | CFArray.c:56-59 | The number of the highest bit brackets the argument between powers of two. |
| `DequeArray.RoundUpCapacity` | CFArray.c:56-59 | The capacity is 4, or the power of two that is above what is asked for and at most twice that. |
| `DequeArray.SpliceBack` | CFArray.c:930-1000 | Replacing a range by what it held undoes a replacement. |
| `DequeArray.SpliceBalances` | CFArray.c:930-1000 | The values before and those put in are the values after and those taken out. |
| `DequeArray.OverwriteKeeps` | CFArray.c:826-866 | A move or a clearing leaves alone what it does not overlap. |
| `DequeArray.MoveRightRegion` | CFArray.c:826-833 | Sliding the right region keeps both regions and opens the gap. |
| `DequeArray.MoveLeftRegion` | CFArray.c:834-842 | Sliding the left region does, and moves the left index. |
| `DequeArray.RecenterLeft` | CFArray.c:855-859 | Towards the left, moving the left region first keeps both. |
| `DequeArray.RecenterRight` | CFArray.c:860-865 | Towards the right, moving the right region first does. |
| `DequeArray.Recenter` | CFArray.c:843-866 | Both orders of the two overlapping moves keep both regions, neither overwrites a value still needed, and the buckets exposed are cleared. |
| `DequeArray.Reallocate` | CFArray.c:804-824 | New buckets hold both regions around the gap. |
| `DequeArray.ReleaseRange` | CFArray.c:206-249 | Exactly the values of the range are released, once each, and their buckets cleared; the other values stand. |
| `DequeArray.MutableArray.RepositionDequeRegions` | CFArray.c:783-867 | Every branch opens the gap of the new size, stays within the capacity and clears the buckets that it exposes; when new buckets are taken, how many, and that the free ones are split evenly. |
| `DequeArray.MutableArray.SlideRegions` | CFArray.c:826-866 | Within the same buckets the region with fewer values slides if there is room on its side, else both are re-centred; the gap gets its size and what is exposed is cleared. |
| `DequeArray.MutableArray.MakeRoom` | CFArray.c:963-986 | First storage, release and repositioning leave a gap of the new size between the values that stay. |
| `DequeArray.MutableArray.ReplaceValues` | CFArray.c:930-1000 | The contents are the values in front, the new ones and those behind; the new values are retained and the old ones released; the bounds and the balance are kept. |
| `DequeArray.SpliceStaysBalanced` | CFArray.c:940-965 | A replacement that retains what comes in and releases what goes out keeps the balance of calls against contents. |
| `DequeArray.MutableArray.AppendValue` | CFArray.c:695-701 | The value is added at the end. |
| `DequeArray.MutableArray.InsertValueAtIndex` | CFArray.c:730-737 | The value is inserted at the index. |
| `DequeArray.MutableArray.RemoveValueAtIndex` | CFArray.c:761-768 | The value at the index is removed. |
| `DequeArray.MutableArray.SetInPlace` | CFArray.c:712-727 | One value is replaced in place, retained before the old one is released. |
| `DequeArray.MutableArray.SetValueAtIndex` | CFArray.c:703-728 | Replaces in place, or appends at the end; the value is retained, and one that is replaced is released. |
| `DequeArray.MutableArray.ExchangeValuesAtIndices` | CFArray.c:741-759 | Two values change places; nothing is retained or released. |
| `DequeArray.MutableArray.RemoveAllValues` | CFArray.c:770-780 | The array is empty, the storage gone and every value released. |
| `ArraySearch.BSearchValues` | CFArray.c:1081-1107 | The index that splits a sorted range, under any total preorder, into the values below the given one and the others; every probe is in range. |
| `ArraySearch.Halved` | CFArray.c:1099-1104 | One round keeps the value behind probe idx and not behind probe idx + 2^lg, probes outside the range being infinite. |
| `ArraySearch.FirstBrackets` | CFArray.c:1095-1098 | The first probe decides between the two brackets of a power of two at the ends of the range. |
| `Ordering.SwapKeepsTies` | CFArray.c:1019-1021 | Exchanging neighbours that are out of order reorders no values that compare equal. |
| `ArraySort.ZSort` | CFArray.c:1013-1026 | The range ends up sorted, a rearrangement in which ties keep their order; the rest of the array is unchanged. |
| `ArraySort.StableSortIsUnique` | CFArray.c:1013-1026 | There is only one sorted sequence that has the same ties in the same order. |
| `Unicode.CodesInverse` | CFBuiltinConverters.c:970-986 | Taking UTF-16 apart into code points loses nothing. |
| `Unicode.Utf16Inverse` | CFBuiltinConverters.c:1103-1107 | Scalar values written as UTF-16 (section 2.1 of RFC 2781) are read as themselves (section 2.2). |
| `Unicode.Utf8IsLegal` | CFBuiltinConverters.c:934-955 | The octets of section 3 of RFC 3629 obey the syntax of section 4 exactly for scalar values, and carry the value. |
| `Unicode.LegalIsUtf8` | CFBuiltinConverters.c:1062-1071 | Every legal sequence is the encoding of the value it carries. |
| `Utf8Encoder.BytesToWrite` | CFBuiltinConverters.c:924-932 | The length of the encoding. |
| `Utf8Encoder.ToUTF8Core` | CFBuiltinConverters.c:934-955 | Writes the encoding of one character, or nothing if it does not fit. |
| `Utf8Encoder.ToUTF8` | CFBuiltinConverters.c:957-997 | For any input and limit: what is consumed are the units, and what is written is the encoding, of exactly the characters that `Converted` gives: all up to the first that has no encoding (if strict) or for which it finds no place. None is split, and the bytes behind are left alone. |
| `Utf8Room.ConvertedIff` | CFBuiltinConverters.c:957-997 | All characters for which there is place are converted if and only if none of them, other than an ASCII one, comes where the low 32 bits of the room left are less than it takes. |
| `Utf8Room.SmallLimitIsSafe` | CFBuiltinConverters.c:985 | With a limit below 2^32 that never happens. |
| `Utf8Room.StopsAtOnce` | CFBuiltinConverters.c:934-944 | With a limit of 2^32 and U+0080 it does: there is place, and nothing is converted. |
| `Utf8Room.EnoughPlace` | CFBuiltinConverters.c:957-997 | With place for all, everything up to the first unpaired surrogate fits. |
| `Utf8Encoder.ConvertsWellFormed` | CFBuiltinConverters.c:957-997 | Without limit the strict conversion consumes all if and only if the text is well formed. If the encoding takes fewer than 2^32 bytes, it produces the length computed in advance for exactly those texts; a well-formed text that takes more never has it, as that length is cut to 32 bits. |
| `Utf8Encoder.ToUTF8Len` | CFBuiltinConverters.c:1119-1134 | The length of the encoding of the text, unpaired surrogates counting three bytes, in 32 bits. |
| `Utf8Text.PieceIsUnique` | CFBuiltinConverters.c:887-896 | No legal sequence and no lone 0xA9 is the beginning of another. |
| `Utf8Text.DecodesLongestText` | CFBuiltinConverters.c:1024-1117 | What is decoded is a sequence of legal sequences and lone 0xA9 bytes, and if it ends where none follows, there is no longer one. |
| `Utf8Text.DecodesReencodes` | CFBuiltinConverters.c:1046-1056 | Encoding again gives back the bytes if and only if no 0xA9 was replaced; each one replaced adds two bytes. |
| `Utf8Text.DecodesPatched` | CFBuiltinConverters.c:1046-1056 | What is decoded encodes the bytes read, with EF BF BD for every lone 0xA9. |
| `Utf8Examples.LoneByte` | CFBuiltinConverters.c:1038-1056 | Of the single bytes ASCII is decoded to itself, 0xA9 to U+FFFD, and no other. |
| `Utf8Examples.DecodeCopyright` | CFBuiltinConverters.c:1046-1056 | The decoder, called with a lone 0xA9, writes U+FFFD. |
| `Utf8Examples.Section7` | CFBuiltinConverters.c:934-955 | Two of the examples of section 7 of RFC 3629. |
| `Utf8Examples.EncodeAndDecode` | CFBuiltinConverters.c:957-1117 | Encoder and decoder, called with the second one. |
| `Utf8Text.DecodesAll` | CFBuiltinConverters.c:1024-1117 | What has been decoded, and the codes of what follows, are the codes of all pieces. |
| `Utf8Text.LongestText` | CFBuiltinConverters.c:1024-1117 | All pieces together are the longest beginning made of legal sequences and lone 0xA9 bytes. |
| `Utf8Text.DecodesIsUnique` | CFBuiltinConverters.c:1024-1117 | There is one complete decoding. |
| `Utf8Decoder.IsLegalUTF8` | CFBuiltinConverters.c:1010-1022 | The check is the syntax of section 4 of RFC 3629. |
| `Utf8Decoder.Accumulate` | CFBuiltinConverters.c:1058-1071 | Shifting the bytes together and subtracting one constant gives the value of the sequence. |
| `Utf8Decoder.ReadPiece` | CFBuiltinConverters.c:1038-1071 | One round of the loop reads the piece in front, if there is one. |
| `Utf8Limits.FitIs` | CFBuiltinConverters.c:1036 | Codes that fit into the output while the next one does not are all that fit. |
| `Utf8Limits.LosesIff` | CFBuiltinConverters.c:1104 | A character is lost if and only if one outside the basic plane comes, in the input, where one unit of the limit is left. |
| `Utf8Limits.EndsAsWritten` | CFBuiltinConverters.c:1036-1117 | Wherever the loop ends, what it has written and consumed is what the input and the limit determine. |
| `Utf8Decoder.FromUTF8` | CFBuiltinConverters.c:1024-1117 | For any input and limit: the units of all pieces that fit are written and no others, and as many bytes are reported as consumed as those pieces take, and one piece more if a character is lost. |
| `Utf8Decoder.FromUTF8Len` | CFBuiltinConverters.c:1136-1203 | The number of units that the conversion without limit produces. |
| `Utf8RoundTrip.ThreeBytesPerUnit` | CFBuiltinConverters.c:1205-1208 | Three bytes a unit are always enough. |
| `Utf8RoundTrip.OneUnitPerByte` | CFBuiltinConverters.c:1024-1117 | One unit a byte is always enough. |
| `Utf8RoundTrip.EncodingIsReadBack` | CFBuiltinConverters.c:1024-1117 | Decoding the encoding of scalar values gives them, and consumes all of it. |
| `Utf8RoundTrip.EncodeThenDecode` | CFBuiltinConverters.c:957-1117 | What comes back is the part of the text that is converted: all of it if and only if it is well formed and the encoder does not stop early, which below 2^32 bytes it never does; there, otherwise, the part before the first unpaired surrogate. |
| `Utf8RoundTrip.ConvertsInTriple` | CFBuiltinConverters.c:957-997 | With three bytes a unit everything is converted if and only if the text is well formed and the encoder does not stop early. |
| `Utf8RoundTrip.StopAtOnce` | CFBuiltinConverters.c:985 | The encoder, called with U+0080 and a limit of 2^32 bytes, consumes and writes nothing. |
| `Utf8RoundTrip.LongTextStopsAtOnce` | CFBuiltinConverters.c:985 | Of a text of 1431655766 units that starts with a character of three bytes nothing is converted, although three bytes a unit are enough. |
| `Utf8RoundTrip.DecodeThenEncode` | CFBuiltinConverters.c:957-1117 | Any number of decoded pieces is well-formed text, and encodes to their bytes if and only if none is a lone 0xA9. |
| `Utf8RoundTrip.OutputIsConsumed` | CFBuiltinConverters.c:1024-1117 | For any input and limit, what is written encodes the bytes reported as consumed if and only if no piece that fits is a lone 0xA9 and no character outside the basic plane comes where one unit is left. |
| `Utf8RoundTrip.CharacterIsLost` | CFBuiltinConverters.c:1104 | U+10000 with room for one unit: nothing is written and four bytes are consumed. |
| `Utf8RoundTrip.LoseCharacter` | CFBuiltinConverters.c:1104 | The decoder, called on that input, reports four bytes consumed and no unit used. |
| `HeapOrder.RootIsMinimum` | CFBinaryHeap.c:325-329 | The first bucket of a heap holds a minimum. |
| `HeapOrder.Rise` | CFBinaryHeap.c:399-406 | Moving the hole up keeps the order everywhere else. |
| `HeapOrder.Sink` | CFBinaryHeap.c:429-444 | Moving the hole to the smaller child does. |
| `HeapOrder.SunkIsHeap` | CFBinaryHeap.c:439 | Where the smaller child is greater, the value in the hole completes the heap. |
| `BinaryHeap.SiftUp` | CFBinaryHeap.c:396-412 | Heap order, and the values with the new one. |
| `BinaryHeap.SiftDown` | CFBinaryHeap.c:423-446 | Heap order, and the values without the first. |
| `BinaryHeap.Heap.GetMinimum` | CFBinaryHeap.c:325-329 | A value that is no greater than any, for the comparator, or as a pointer if there is none. |
| `BinaryHeap.Heap.Grow` | CFBinaryHeap.c:372-382 | More room, the same values. |
| `BinaryHeap.PointerOrderIsPreorder` | CFBinaryHeap.c:403 | Without a comparator the smaller pointer comes first, which is a total order. |
| `BinaryHeap.Heap.AddValue` | CFBinaryHeap.c:384-413 | The values with one more; order and capacity are kept. |
| `BinaryHeap.Heap.RemoveMinimumValue` | CFBinaryHeap.c:415-447 | The values without the first, which is a least one; an empty heap is left alone. |
| `BinaryHeap.Heap.CreateCopy` | CFBinaryHeap.c:283-286 | A new heap with the same values. |
| `BinaryHeap.Heap.GetValues` | CFBinaryHeap.c:338-354 | All the values, later ones never smaller, for the comparator or as pointers; the heap is unchanged. |
| `BinaryHeap.DrainOne` | CFBinaryHeap.c:348-352 | Taking out a minimum keeps the output sorted and below what is left. |
| `BitBuckets.Mask` | CFBitVector.c:120-126 | The mask has exactly the bits from the bottom to the top bit. |
| `BitBuckets.CountBits` | CFBitVector.c:338-348 | The nibble table counts the bits under the mask that have the value. |
| `BitVector.BitIsDigit` | CFBitVector.c:118-126 | Bit k is binary digit 7 - k % 8 of bucket k / 8. |
| `BitVector.BucketMapped` | CFBitVector.c:316-334 | Mapping part of one bucket extends the mapped range by exactly those bits. |
| `BitVector.CountContinues` | CFBitVector.c:338-348 | Counting the bits under a mask extends the count by exactly those bits. |
| `BitVector.InternalMap` | CFBitVector.c:299-331 | The bits of the range are mapped one by one, no other bit changes, and the count is that of the range. |
| `BitVector.CountRangeIsMultiplicity` | CFBitVector.c:350-359 | The count is the multiplicity of the value among the bits of the range. |
| `BitVector.MutableBitVector.GetCountOfBit` | CFBitVector.c:350-359 | The number of bits of a value; the vector is unchanged. |
| `BitVector.MutableBitVector.SetBits` | CFBitVector.c:512-522 | The bits of the range have the value, the others are kept. |
| `BitVector.MutableBitVector.FlipBits` | CFBitVector.c:497-503 | The bits of the range are the opposite, the others are kept. |
| `BitVector.MutableBitVector.Grow` | CFBitVector.c:448-457 | New capacity, the same bits. |
| `BitVector.MutableBitVector.SetCount` | CFBitVector.c:467-485 | Shrinking keeps the first bits; growing adds zeros, whatever an earlier shrink left there. |
| `BitVector.MutableBitVector.SetAllBits` | CFBitVector.c:524-539 | Every bit has the value. |
| `SearchList.MergedIsFirstMatch` | CFApplicationPreferences.c:275-307 | Looking up in the merged dictionary is taking the first domain down the list that has the key. |
| `SearchList.SetElsewhere` | CFApplicationPreferences.c:345-350 | A write to a domain that is not searched changes nothing that is found. |
| `SearchList.SetChangesIff` | CFApplicationPreferences.c:340-353 | A write changes what is found for its key if and only if no domain in front has the key and the value found from there on was another. |
| `Preferences.ComputeDictRep` | CFApplicationPreferences.c:279-307 | The loop from the last domain to the first computes the merged dictionary. |
| `Preferences.ApplicationPreferences.CreateValueForKey` | CFApplicationPreferences.c:325-337 | The value comes from the cache, which is filled if it is empty; if the cache is right, it is the first match in the contents of now. |
| `Preferences.ApplicationPreferences.Write` | CFApplicationPreferences.c:340-368 | Writes the application domain; the cache, if it survives, is still right. |
| `Preferences.ApplicationPreferences.AddSuitePreferences` | CFApplicationPreferences.c:547-608 | Inserts the four domains of a suite at the places the anchors give, in each fallback. |
| `Preferences.ApplicationPreferences.PerformAll` | CFApplicationPreferences.c:325-656 | Any run of lookups, writes, removals, added domains and suites, resets and synchronizations returns what it would without the cache. |
| `SuiteOrder.AnyUserPlace` | CFApplicationPreferences.c:574-592 | Where the domains of a suite for any user go if the anchors before are missing. |
| `SuiteOrder.AddingSuite` | CFApplicationPreferences.c:547-608 | One more suite extends the documented order. |
| `SuiteOrder.SuitesAreInOrder` | CFApplicationPreferences.c:404-426 | Adding any suites to the standard list gives the documented priority order. |
| `PreferenceRuns.WritesOneKey` | CFApplicationPreferences.c:340-368 | Setting or removing a key changes that key in the domain of the application for this user on any host, and nothing else. |
| `PreferenceRuns.SetIsFound` | CFApplicationPreferences.c:325-353 | On the standard list with any suites added, a key that is set is found afterwards, unless the application has a value for this user on this host. |
| `PreferenceRuns.AddedDomainIsFound` | CFApplicationPreferences.c:642-650 | A domain added on top is looked at first, one at the bottom last; after a synchronization the new contents count. |
| `PreferenceRuns.RemoveUncovers` | CFApplicationPreferences.c:325-368 | After a key is removed, what is found is what the other domains have. |
| `PreferenceRuns.SetAndGet` | CFApplicationPreferences.c:325-353 | The same of the methods, through the cache. |
| `PreferenceRuns.RemoveAndGet` | CFApplicationPreferences.c:325-368 | The same of removing. |
| `SuiteOrder.UntoldCacheIsRightIff` | CFApplicationPreferences.c:340-353 | A cache that is not told of a write is right if and only if its domain is not searched, is hidden by one in front, or gives the same value as before. |
| `SuiteOrder.WriteUntold` | CFApplicationPreferences.c:340-353 | Of two applications that share the domains one writes: the cache of the other stays right if and only if it is empty or that condition holds. |
| `SuiteOrder.OtherCacheGoesStale` | CFApplicationPreferences.c:325-353 | Two applications, a lookup, a write by the other one and a second lookup: it still gives nothing, while the search list has the value. |
| `CalendarDifference.HalfOfPower` | CFCalendar.c:972-976 | Dividing a signed power of two toward zero halves it, down to 1 and then 0. |
| `CalendarDifference.DigitsAreBits` | CFCalendar.c:965-977 | The steps below a power of two, each taken once if it fits, are the bits of a number below it, and lead where adding these bits leads. |
| `CalendarDifference.FirstStepPasses` | CFCalendar.c:955-977 | For every `add`: if a step passes the goal, only smaller ones are taken, each at most once. |
| `CalendarDifference.DigitsAreLargest` | CFCalendar.c:965-977 | Where time is uniform, after a step that would pass the goal the smaller ones reach the largest amount that fits. |
| `CalendarDifference.ClimbIsLargest` | CFCalendar.c:949-978 | Where time is uniform, so does the whole climb. |
| `CalendarDifference.FirstSteps` | CFCalendar.c:949-950 | The first step of each unit. |
| `CalendarDifference.LargestFits` | CFCalendar.c:955-978 | Where time is uniform, an amount does not pass the goal if and only if it is no larger than the result. |
| `CalendarDifference.Gallop` | CFCalendar.c:949-978 | Ends for every `add`, never passes the goal, and climbs by the steps of `Climb`. If the first step (1, 2^16, 2^19, 2^24, 2^26, 2^24, 2^28 or 2^14 of the unit) passes the goal, the result is below it and `curr` is where adding its bits leads; where time is uniform the result is the largest amount that fits. |
| `CalendarDifference.FirstIsAddedFirst` | CFCalendar.c:917-929 | Adding several components is adding the first and then the others. |
| `CalendarDifference.AddComponents` | CFCalendar.c:910-935 | Adds the components in order. |
| `CalendarDifference.AmountsAreBits` | CFCalendar.c:947-984 | For every `add`: where the first step of a unit passes the goal, its amount is below that step, and its bits lead to where the next unit starts. |
| `CalendarDifference.ComponentDifference` | CFCalendar.c:937-985 | For every `add` the amounts of `ClimbAll`; where time is uniform each is the largest that fits after those before it. |
| `ClampedCalendar.UntilMarch31` | CFCalendar.c:937-985 | Called with an `add` that clamps to the end of the month: two months and no day from January 31 to March 31. |
| `ClampedCalendar.MonthsDoNotAddUp` | CFCalendar.c:910-935 | That `add` is not uniform. |
| `CalendarDifference.DifferenceAddsUp` | CFCalendar.c:937-985 | Adding the difference back does not pass the goal and comes within one of the last unit. |
| `CalendarDifference.DifferenceIsUnique` | CFCalendar.c:937-985 | There is only one difference. |

## Left out

Of the property lists:

* `CFEqual` is a parameter. Lookups assume of it only that strings are equal to strings with the same characters; so a
  dictionary key that is no string may equal others in any way. Identity of objects is not modelled.
* Mutability decides only what the reader may remember, not the kind of objects it makes.
* An ASCII string object with bytes above 0x7F is read byte by byte, as the string code does. The 8-bit encoding in which a key
  is compared is not part of this model: the bytes of the key are a parameter of the search, and its agreement with the
  dictionary is stated for ASCII keys, whose bytes are their characters.
* What the code does once it reads outside the data: the search then has the outcome `Undefined`.
* The writer's uniquing set compares addresses: its callbacks have no equality function. So equal strings at different
  addresses are written twice, although the comment above the code suggests otherwise; the code is followed.
* The writer's input has no cycles, its lists have fewer than 2^32 objects and its files fit a signed 64-bit length. Dictionary
  keys are leaves that stay distinct in the file; the writer does not check either, and the reader rejects or merges them.
* Null, sets and other types are not written (0 is returned), as in the code. Real numbers and dates are bit patterns.
* Stream errors, the error object and the size estimate; pointers are positions, and do not wrap around an address space.

Of the arrays:

* An array that grows stays below 2^30 values (`HasRoomFor`), because capacities are computed by shifting an
  `int`; the range searched is shorter than 2^31 for the same reason.
* Callbacks that return another pointer than they retain, or that change the array; write barriers; finalized arrays.
* `_CFArraySetCapacity`, which copies the old number of buckets into a possibly smaller block, and sorting by
  `CFQSortArray`, which is not part of this model.

Of the conversions:

* Lossy, lenient, decomposing and HFS+ modes, except that the encoder's `strict` flag is kept. Characters above U+10FFFF in the
  byte writer: they do not come from UTF-16. The decoder's branches for decoded surrogates and values above U+10FFFF are dead
  after the legality check, which `CodeOf` shows by its contract.
* The masks `(ch | 0x80) & 0xBF` and shifts by 6 are written as remainders and quotients.

Of the rest:

* A heap that grows stays below 2^30 values, because its capacities too are computed by shifting an `int`.
* Retaining and releasing the values of a heap, `CFBinaryHeapApplyFunction` and heap equality. Comparison results count by sign.
* Reading bits into bytes, equality of bit vectors, and setting or flipping a single bit.
* Removing domains from a search list: the loop shortens its range by an absolute index and may miss a third occurrence. Domains
  that cannot be created, the lock, which is given up between the insertions of a suite, and the registry of applications.
* What the calendar's `add` does, floating-point time (instants are whole milliseconds), 32-bit overflow of a component, and
  `CFCalendarGetOrdinalityOfUnit`, whose loop is the same with the count starting at 1.
