# Proofs about CoreFoundation's data structures and formats

A Dafny 4.11 model of seven parts of the CoreFoundation sources in `RunLoopCF-1153.18`, and proofs of what they
promise. Loops and in-place updates of the C code are methods over arrays and fields; each is proved against a
specification, and what the specification is for is proved as lemmas.

**Binary property lists** (`Plist*.dfy`, `SizedInts.dfy`). Objects are nodes with identity. The writer flattens a
graph, writes through a buffer of 8160 bytes to a stream whose answers are a parameter, and ends with offset table and
trailer. The reader checks the trailer with overflow-checked arithmetic and descends recursively with a memo table and
a set of offsets that is only created at depth 16. `Parses` and `Value` say, without table, set or depth, what the
bytes at an offset mean; the reader is proved to agree with them on every file, cyclic ones included. The main results
are the round trip with its exact condition, the exactness of the lazy cycle test and of the memo table, and when the
quick lookup in a dictionary agrees with parsing it. `PlistWalk`, `PlistLiterals` and `PlistReadLiterals` say the same
of list, file and reader in literal bytes, without the functions that writer and reader are proved against.

**Hash tables** (`Hash*.dfy`). One table serves sets, dictionaries and bags. Its `Valid` says that every key is found
from its home, no key is stored twice, keys and values are marked alike, and the numbers of live and freed buckets and
the width of the counts are right, with less than a quarter of the buckets freed. Every operation is proved against
the map of entries the table stands for; `HashRuns` puts them together for whole runs, and `HashOrders` for
dictionaries that number their keys.

**Array deque, search and sort** (`ArrayDeque.dfy`, `ArraySort.dfy`, `Order.dfy`, `Bits.dfy`). A splice through four
strategies of moving buckets, a binary search that starts at a power of two, and an exchange sort.

**UTF-8** (`Utf8*.dfy`). The encoder, the decoder and their counting passes, against the layout in section 3 and the
syntax in section 4 of RFC 3629, the longer forms of section 2 of RFC 2279, and the pairs of sections 2.1 and 2.2 of
RFC 2781.

**Binary heap, big numbers, bit vectors** (`BinaryHeap.dfy`, `Big*.dfy`, `Decimals.dfy`, `Bit*.dfy`).

## Where the code does not do what it is for

Each of these is stated by a lemma or a contract, with the exact condition under which the code is right.

- A 128-bit integer loses its high word when it is read (`PlistRoundTrip.HighWordLost`, line 1116 of the reader).
- The quick dictionary lookup refuses a string that ends at the offset table, such as the last one of a file this
  writer makes, and never matches a short string stored with a separate count (`PlistLookupLimits.OwnKeyLost`,
  `PlistLookupLimits.LongFormLost`; `PlistLookup.QuickAgrees`, `PlistLookupLimits.WrittenAgrees`).
- Adding big numbers keeps a digit of exactly 10^9, because line 471 tests `>`; such a number is printed wrong
  (`BigNumberText.SumMisprinted`, `BigNumberText.PrintsRight`, `BigNumber.BigNum.Add`) and can be subtracted wrong
  (`BigNumberRuns.LooseDifferenceWrong`, `BigSums.DifferenceExact`), but adds up and converts right
  (`BigNumberRuns.AddUp`, `BigNumberRuns.CreateSum`).
- Comparing a zero that has a sign with one that has none does not say equal (`BigNumber.BigNum.Compare`); a sum that
  cancels has the sign of its first operand (`BigNumberRuns.SignedZeroDiffers`).
- The total of a bag wraps at 2^63, and comparing bags can then say that different ones are equal
  (`HashSlots.TotalsWrap`, `HashTable.Table.AreEqual`).
- With one place left the UTF-8 decoder consumes a four-byte character without writing it
  (`Utf8RoundTrip.TightLimitLoses`, `Utf8Decoder.SplitIsPair`), and in lenient mode its counting pass goes on where
  the decoder stops (`Utf8RoundTrip.LenientCountDiffers`).
- The UTF-8 encoder cuts the room it passes on to 32 bits, so with a limit of 2^32 bytes or more it can stop before a
  character of several bytes that fits (`Utf8Encoder.RoomLost`, `Utf8Encoder.StuckUnlessCut`), and its counting pass
  wraps at 2^32 (`Utf8Encoder.CountWraps`, `Utf8Encoder.CountAgreesBelow`). Its inner function has a wrong branch for
  values above 0x7FFFFFFF, which no caller reaches (`Utf8Encoder.ToUTF8Core`).
- Numbering keys past one of the two stand-ins loses the number (`HashNumbering.StandInLost`,
  `HashNumbering.RenumberedRight`).
- Text of a number of 2^32 times 10^36 or more is read as another number (`BigNumberText.ReadAsExact`,
  `BigNumberRuns.TooLongReadsZero`).
- The comment on choosing a number type says that the most negative value of each size moves up; only the 8 and 16-bit
  ones do (`BigNumberInts.CreateWithBigNum`).

## Model

| member | source | states |
|---|---|---|
| PlistRoundTrip.RoundTrip | RunLoopCF-1153.18/CFBinaryPList.c:610-707 | For every acyclic graph the writer accepts (shared nodes, fewer than 2^32 objects), the bytes written pass every check of the reader, and parsing them gives the value of the graph if and only if no integer needs its high 64-bit word and no dictionary in it has a collection as a key; otherwise it gives exactly what `ReadBack` says, or nothing |
| PlistRoundTrip.ReadBackExact | RunLoopCF-1153.18/CFBinaryPList.c:1061-1559 | An object reads back as the value it denotes exactly when the format keeps that value, for every object of every acyclic graph |
| PlistRoundTrip.ObjectAgrees | RunLoopCF-1153.18/CFBinaryPList.c:1061-1559 | At the place of every written object the reader parses if and only if the object can be read back, and returns what it reads back as |
| PlistRoundTrip.WriteAndParse | RunLoopCF-1153.18/CFBinaryPList.c:610-1609 | The writer followed by the reader, over any stream: what the stream received is parsed to what the graph reads back as, and to its very value exactly when the format keeps it; nothing is parsed exactly when the graph has no place in the format, the stream failed, or the graph does not read back |
| PlistRoundTrip.HighWordLost | RunLoopCF-1153.18/CFBinaryPList.c:1098-1126 | Every 128-bit integer with a high word that is not zero is written, accepted and parsed, and comes back without that word |
| PlistRoundTrip.WrittenAccepted | RunLoopCF-1153.18/CFBinaryPList.c:759-847 | Every file the writer makes is accepted by the checks of trailer and offset table |
| PlistRoundTrip.OffsetReadBack | RunLoopCF-1153.18/CFBinaryPList.c:684-692 | Every entry of the written offset table, read at the width chosen for it, is the position of its object's first byte in the file |
| PlistRoundTrip.TargetsReadBack | RunLoopCF-1153.18/CFBinaryPList.c:872-886 | Each reference of a written collection, followed through the offset table, leads to the place of that child |
| PlistReadBack.DecodesLeaf | RunLoopCF-1153.18/CFBinaryPList.c:1083-1297 | The bytes of every leaf decode to the leaf again, less the high word of a 128-bit integer |
| PlistFlatten.FlattenClosure | RunLoopCF-1153.18/CFBinaryPList.c:543-585 | After flattening, the root has number 0, every child of every listed object has a number, and the list holds that very object at that number, shared and repeated objects included |
| PlistFlatten.Flattener.FlattenPlist | RunLoopCF-1153.18/CFBinaryPList.c:543-585 | The recursive walk over list, table and uniquing set changes them as the pure flattening of the graph does, whatever they held |
| PlistWalk.FlattenIsWalk | RunLoopCF-1153.18/CFBinaryPList.c:543-585 | The list is the walk over the graph from the root, an object and then what is met from each child in turn, less every string, number, date and data met again; the number of an object is its first place in the list |
| PlistWalk.TimesListed | RunLoopCF-1153.18/CFBinaryPList.c:550-562 | A string, integer, real, date or data is listed once if it is met at all; a boolean, UID, array or dictionary exactly as often as it is met |
| PlistWalk.ListedOnce | RunLoopCF-1153.18/CFBinaryPList.c:550-562 | No two places of the list hold the same string, integer, real, date or data |
| PlistWriter.Write | RunLoopCF-1153.18/CFBinaryPList.c:610-707 | On success the stream has received exactly the header, objects, offset table and trailer of the layout and the length is returned; whatever the stream answers, it has received a prefix of that file; an object that cannot be written makes the result 0 |
| PlistWriter.WriteBuffer.BufferWrite | RunLoopCF-1153.18/CFBinaryPList.c:212-237 | Flushed bytes followed by pending bytes are always all bytes handed over, through the partial copies at the end of the fixed buffer |
| PlistWriter.WriteBuffer.BufferFlush | RunLoopCF-1153.18/CFBinaryPList.c:207-210 | The pending bytes reach the stream, or the stream is in error and has received a prefix of them |
| PlistWriter.WriteBuffer.WriteBytes | RunLoopCF-1153.18/CFBinaryPList.c:169-205 | A stream that takes writes in parts receives a prefix of what is written, and all of it unless it answers with an error |
| PlistWriter.WriteBuffer.AppendObject | RunLoopCF-1153.18/CFBinaryPList.c:456-541 | One object adds exactly its marker, count and references or leaf bytes; a null is refused and adds nothing |
| PlistWriter.WriteObjects | RunLoopCF-1153.18/CFBinaryPList.c:658-676 | The offset recorded for each object, flushed count plus pending count, is the length of everything before it in the file |
| PlistLiterals.BigEndianOfTwo | RunLoopCF-1153.18/CFBinaryPList.c:751-756 | The first byte of a number is its most significant one |
| PlistLiterals.IntLiterals | RunLoopCF-1153.18/CFBinaryPList.c:329-454 | The literal bytes of every integer: 0x10 to 0x13 and one, two, four or eight bytes, the least that hold it without a sign and eight for a negative one, and 0x14 with high and low word for 128 bits |
| PlistLiterals.FixedLiterals | RunLoopCF-1153.18/CFBinaryPList.c:352-481 | The literal first bytes 0x08, 0x09, 0x22, 0x23, 0x33 and 0x80 to 0x83 of booleans, reals, dates and UIDs, and the number in the bytes after them |
| PlistLiterals.CountedLiterals | RunLoopCF-1153.18/CFBinaryPList.c:373-475 | Data and strings start with 0x40, 0x50 or 0x60 and the count, in the first byte or after a 15 there; then come the bytes, or two bytes for each unit of a string that is not all ASCII |
| PlistLiterals.ArrayLiterals | RunLoopCF-1153.18/CFBinaryPList.c:512-535 | An array is 0xA0 with the count and then, for each item in turn, its number in as many bytes as references have, and nothing else |
| PlistLiterals.DictLiterals | RunLoopCF-1153.18/CFBinaryPList.c:482-511 | A dictionary is 0xD0 with the count, the numbers of all keys, and then those of all values |
| PlistLiterals.WrittenAt | RunLoopCF-1153.18/CFBinaryPList.c:658-676 | In every file the writer makes, the bytes of each listed object are at its place, where a boolean is the byte 0x09 for true and 0x08 for false |
| PlistLiterals.EndLiterals | RunLoopCF-1153.18/CFBinaryPList.c:640-707 | Every file starts with the eight letters bplist00 and ends with zero bytes, the two widths, the number of objects, the number 0 of the top object and the place of the offset table, each at its byte |
| SizedInts.GetSizedInt | RunLoopCF-1153.18/CFBinaryPList.c:735-757 | The integer of a number of big-endian bytes modulo 2^64, by a load and a byte swap for widths of 2, 4 and 8, by one byte, and by the loop for other widths |
| SizedInts.SwappedIsBigEndian | RunLoopCF-1153.18/CFBinaryPList.c:738-749 | A word loaded on a little-endian machine and swapped is the big-endian number, for every width |
| SizedInts.GetSizedIntByBytes | RunLoopCF-1153.18/CFBinaryPList.c:751-756 | The loop finds the same integer for every width, as machines without the fast paths use it |
| SizedInts.SizedIntExact | RunLoopCF-1153.18/CFBinaryPList.c:735-757 | Eight or fewer bytes are read without loss |
| SizedInts.BytesRoundTrip | RunLoopCF-1153.18/CFBinaryPList.c:684-688 | A number written in a width it fits is read back |
| SizedInts.BigEndianRoundTrip | RunLoopCF-1153.18/CFBinaryPList.c:735-757 | Bytes read as a number and written in their width are the same bytes |
| SizedInts.ByteCount | RunLoopCF-1153.18/CFBinaryPList.c:589-606 | The chosen width is the least of 1, 2, 4 and 8 bytes that holds the count |
| PlistTrailer.GetTopLevelInfo | RunLoopCF-1153.18/CFBinaryPList.c:759-847 | The overflow-checked arithmetic accepts a file if and only if, over unbounded integers, the sections fit together, the widths are enough, and every table entry points between the header and the table |
| PlistTrailer.CheckedMul | RunLoopCF-1153.18/CFBinaryPList.c:70-75 | The product modulo 2^64, with the error set exactly when it overflows |
| PlistTrailer.SectionsFit | RunLoopCF-1153.18/CFBinaryPList.c:798-818 | The chained overflow tests succeed exactly when the unbounded sums add up to the length of the file |
| PlistReader.CreateObject | RunLoopCF-1153.18/CFBinaryPList.c:1061-1559 | For every trusted file, even a cyclic one, any depth, any set of offsets on the path and any memo table of earlier successes: it ends; it succeeds if and only if everything reachable is well formed without a cycle; it returns the one value there; the memo table stays sound, and on success the path set is as before |
| PlistReader.CreateCollection | RunLoopCF-1153.18/CFBinaryPList.c:1299-1559 | The same for the references of one array, set or dictionary, whose keys must not be collections; from depth 16 on the path is recorded and restored |
| PlistReader.RecordingDecreases | RunLoopCF-1153.18/CFBinaryPList.c:1072-1073 | Recording an offset not on the path yet makes the number of unrecorded offsets smaller, the second part of the measure by which the descent ends |
| PlistReader.NoCycles | RunLoopCF-1153.18/CFBinaryPList.c:1072-1073 | An object from which it can itself be reached never parses, so the lazy test for cycles refuses nothing that parses |
| PlistReader.CollectionParses | RunLoopCF-1153.18/CFBinaryPList.c:1299-1559 | A collection parses exactly when all its references lead to objects that parse and no dictionary key among them is a collection, and its value is built of theirs, which `PlistReadLiterals.ItemsRead` and `PairsRead` spell out |
| PlistReader.GetOffsetOfRefAt | RunLoopCF-1153.18/CFBinaryPList.c:872-886 | The offset a reference leads to, or the largest word when it lies outside the objects or has no entry |
| PlistReader.TryParse | RunLoopCF-1153.18/CFBinaryPList.c:1566-1609 | Arbitrary bytes parse exactly when the checks accept them and the top object parses, to its value |
| PlistReadLiterals.SingleRead | RunLoopCF-1153.18/CFBinaryPList.c:1083-1097 | At any place of a trusted file the byte 0x09 is true, 0x08 false and 0x00 null, and no other byte below 0x10 parses |
| PlistReadLiterals.IntRead | RunLoopCF-1153.18/CFBinaryPList.c:1098-1127 | The bytes 0x10 to 0x1F: one, two and four bytes without a sign, eight with one, the last eight of sixteen, and nothing beyond the offset table or of more bytes |
| PlistReadLiterals.FixedRead | RunLoopCF-1153.18/CFBinaryPList.c:1128-1189 | The bytes 0x20 to 0x3F: only 0x22, 0x23 and 0x33 parse, to the real or date whose bits follow |
| PlistReadLiterals.CountRead | RunLoopCF-1153.18/CFBinaryPList.c:855-870 | A count is the low four bits of the first byte, or, if these are 15, the last eight bytes of the integer object after it, which must end before the offset table and give less than 2^63; widths of 256 bytes and more, cut to one byte on the way, give 0 |
| PlistReadLiterals.CountedRead | RunLoopCF-1153.18/CFBinaryPList.c:1190-1279 | The bytes 0x40 to 0x6F parse exactly when their count does and their contents end before the offset table, to the data, or to the string whose units are those bytes or pairs of bytes |
| PlistReadLiterals.UidRead | RunLoopCF-1153.18/CFBinaryPList.c:1280-1298 | The bytes 0x80 to 0x8F parse to a UID exactly when the last eight of their one to sixteen bytes are a number below 2^32 |
| PlistReadLiterals.UnknownRead | RunLoopCF-1153.18/CFBinaryPList.c:1557-1559 | No other byte starts an object that parses |
| PlistReadLiterals.ItemsRead | RunLoopCF-1153.18/CFBinaryPList.c:1299-1438 | An array or a set whose count can be read parses exactly when its references end before the offset table and what each leads to parses; its items or members are then the values there, all of them and in turn |
| PlistReadLiterals.PairsRead | RunLoopCF-1153.18/CFBinaryPList.c:1439-1556 | A dictionary parses exactly when its references fit, what each leads to parses, and no key is an array, a set or a dictionary; its keys are the values of the first half of the references and its values those of the second |
| PlistReadLiterals.NoCount | RunLoopCF-1153.18/CFBinaryPList.c:1304-1309 | A collection whose count cannot be read does not parse |
| PlistReadLiterals.ReferenceRead | RunLoopCF-1153.18/CFBinaryPList.c:872-886 | A reference is the number of an object, and leads to the offset in that entry of the offset table |
| PlistReadLiterals.BadReferenceRefused | RunLoopCF-1153.18/CFBinaryPList.c:872-886 | A collection one of whose references is the number of no object does not parse |
| PlistReadLiterals.AcceptedMeans | RunLoopCF-1153.18/CFBinaryPList.c:759-847 | A file is accepted if and only if the counts, widths and places at their bytes from its two ends say that at least one object lies between header and table, that table and trailer end the file, that the widths hold every number and place, and that every entry points before the table |
| PlistReadLiterals.ReferencesReach | RunLoopCF-1153.18/CFBinaryPList.c:818-822 | In an accepted file every object has a number that references of the width given hold without loss |
| PlistLookup.GetOffsetForValue | RunLoopCF-1153.18/CFBinaryPList.c:927-1054 | The linear search for a string key at any offset, in a dictionary that need not parse, returns the offsets of the pair at which its comparisons stop; if the header is the usual one, or the key lies behind it, the key there parses to the key sought, and if the dictionary parses the value there is the value of that pair |
| PlistLookup.QuickAgrees | RunLoopCF-1153.18/CFBinaryPList.c:927-1054 | That pair is the first equal key of the parsed dictionary if and only if no string of the key's length met on the way ends at the offset table and the equal key is not stored with a separate count while shorter than 15 characters |
| PlistLookupLimits.WrittenAgrees | RunLoopCF-1153.18/CFBinaryPList.c:610-1054 | In every dictionary that reads back, of every file the writer makes, the search agrees with parsing first exactly when neither the equal key nor one before it is a string of the same length that is the last object of the file |
| PlistLookupLimits.OwnKeyLost | RunLoopCF-1153.18/CFBinaryPList.c:610-1054 | The file the writer makes of a dictionary with one ASCII key that is its own value, for every such key, parses to that dictionary, and the search does not find the key |
| PlistLookupLimits.LongFormLost | RunLoopCF-1153.18/CFBinaryPList.c:1000-1030 | For every ASCII key of fewer than 15 characters there is an accepted file with that key under a separate count, which parses to a dictionary of it and in which the search does not find it |
| PlistLookup.CompareBytes | RunLoopCF-1153.18/CFBinaryPList.c:1000-1030 | The header and byte comparison of one stored string, well formed or not, matches behind the header only a string that parses to the key; of one that parses it is refused, matches or fails exactly as the value, the place of its end and the form of its count say |
| HashRuns.Run | RunLoopCF-1153.18/CFBasicHash.c:1127-1411 | Any sequence of add, set, replace, remove, remove-all and set-capacity calls, of any length, none of which asks for more room than there are table sizes, leaves a valid table that stands for the map the same calls make, through every growth, shrinking, cleaning and widening of the counts |
| HashRuns.RunBag | RunLoopCF-1153.18/CFBasicHash.c:1127-1411 | A bag put through any such run ends with the multiset that adding and removing single occurrences, setting and emptying make of the multiset it had, while every multiplicity stays below the largest count |
| HashRuns.RunKeepsBag | RunLoopCF-1153.18/CFBasicHash.c:1332-1391 | While every multiplicity stays below the largest count, the counts of the map after any run are those of that multiset |
| HashTable.Table.FindBucket | RunLoopCF-1153.18/CFBasicHashFindBucket.m:100-192 | The probe, which reads keys where there are some and values otherwise, returns the bucket of an equal key with its count, or, when no bucket holds one, the first free bucket on the path from its home; no bucket only when all are in use |
| HashTable.Table.FindBucketNoCollision | RunLoopCF-1153.18/CFBasicHashFindBucket.m:35-192 | Without freed buckets, the first free bucket on the path from the home of an absent key, and it is empty |
| HashTable.Table.EmptyLeft | RunLoopCF-1153.18/CFBasicHash.c:1318-1329 | In every valid table of 71 buckets or more an empty bucket is left on the path of every search: the cleaning at a quarter of freed buckets and the limit on entries together keep the table from filling up |
| HashSlots.FirstFreeMeans | RunLoopCF-1153.18/CFBasicHashFindBucket.m:100-192 | The first free bucket is the one met after some number of steps, all of which before it met an entry |
| HashSlots.ProbeIsLinear | RunLoopCF-1153.18/CFBasicHashFindBucket.m:152-156 | The bucket met after some steps is that many after the home, modulo the number of buckets |
| HashSlots.EmptyEndsSearch | RunLoopCF-1153.18/CFBasicHashFindBucket.m:110-122 | In a searchable table an empty bucket proves the key absent from the whole table |
| HashSlots.EmptyingBreaks | RunLoopCF-1153.18/CFBasicHash.c:1300-1309 | Emptying a removed bucket instead of marking it deleted would hide another key: a concrete table of three buckets |
| HashMarks.StoredFetched | RunLoopCF-1153.18/CFBasicHash.c:492-556 | A word comes back from its stored form exactly when it is not one of the two stand-ins, and is never stored as a mark |
| HashMarks.MarkLiterals | RunLoopCF-1153.18/CFBasicHash.c:299-300 | The two stand-ins are 0xa7baadb1 for 0 and 0xa5baadb9 for the largest word, and every other word is stored as it is |
| HashSizes.GetNumBucketsIndexForCapacity | RunLoopCF-1153.18/CFBasicHash.c:697-708 | The first table size that admits the capacity |
| HashSizes.LoadFactor | RunLoopCF-1153.18/CFBasicHash.c:220-265 | From 191 buckets on the number of entries a table admits is 0.617 to 0.619 of its buckets |
| HashTable.Table.BumpCounts | RunLoopCF-1153.18/CFBasicHash.c:569-626 | Widening keeps every count |
| HashTable.Table.IncSlotCount | RunLoopCF-1153.18/CFBasicHash.c:628-676 | One count grows by one and no other changes, through any chain of widenings |
| HashTable.MaxCountIs | RunLoopCF-1153.18/CFBasicHash.c:628-676 | The largest count of each of the four widths is that of a signed number of 1, 2, 4 or 8 bytes |
| HashTable.Table.Rehash | RunLoopCF-1153.18/CFBasicHash.c:1127-1249 | The same entries in new buckets, each found from its home, no freed bucket left, and room for the new entries |
| HashTable.Table.MoveBuckets | RunLoopCF-1153.18/CFBasicHash.c:1199-1232 | The loop of a rehash moves every entry with its count and finds an empty bucket for each |
| HashTable.Table.AddAt | RunLoopCF-1153.18/CFBasicHash.c:1259-1286 | An absent key gets an entry of count 1; the number of entries and the sixteen-bit number of freed buckets stay exact |
| HashTable.Table.RemoveAt | RunLoopCF-1153.18/CFBasicHash.c:1300-1330 | The entry is gone; the number of freed buckets stays exact because its roll-over from 65535 to 0 forces a rehash, and less than a quarter of 20 or more buckets are freed ones afterwards |
| HashTable.Table.AddValue | RunLoopCF-1153.18/CFBasicHash.c:1332-1350 | A new entry, one more count up to the largest, or no change, and the result says which |
| HashTable.Table.ReplaceValue | RunLoopCF-1153.18/CFBasicHash.c:1352-1362 | A present key gets the new key and value and keeps its count |
| HashTable.Table.PutValue | RunLoopCF-1153.18/CFBasicHash.c:1364-1376 | Replaces a present key and adds an absent one |
| HashTable.Table.RemoveValue | RunLoopCF-1153.18/CFBasicHash.c:1378-1391 | One occurrence less, or no entry after the last; the result is the count before; a count at its largest stays |
| HashTable.Table.RemoveAllValues | RunLoopCF-1153.18/CFBasicHash.c:1407-1411 | The table stands for the empty map |
| HashTable.Table.SetCapacity | RunLoopCF-1153.18/CFBasicHash.c:1251-1257 | Contents stay; a capacity above the number of entries is met and no freed bucket is left |
| HashTable.Table.GetCount | RunLoopCF-1153.18/CFBasicHash.c:931-941 | The size of the multiset the table stands for, in a signed 64-bit word, which is right exactly below 2^63; without counts, the number of entries |
| HashTable.Table.AreEqual | RunLoopCF-1153.18/CFBasicHash.c:971-989 | True exactly when the 64-bit totals agree and are 0 or every entry of the first table is matched in the second; for totals that such words tell apart, as all below 2^63 are, that is if and only if both tables hold the same keys with the same counts and, with separate keys, equal values |
| HashSlots.TotalsWrap | RunLoopCF-1153.18/CFBasicHash.c:931-989 | Tables with counts {1} and {1, 2^63 - 1, 2^63 - 1, 2} for different keys differ and are said to be equal |
| HashSlots.MatchedFromOneSide | RunLoopCF-1153.18/CFBasicHash.c:971-989 | Tables are equal if and only if their true totals are and every entry of the first is matched in the second |
| HashSlots.EqualTotals | RunLoopCF-1153.18/CFBasicHash.c:971-989 | Equal totals and equal counts for the keys of one table leave no key over for the other |
| HashSlots.UsedIsSize | RunLoopCF-1153.18/CFBasicHash.c:931-941 | The number of live buckets is the number of entries of the map |
| HashSlots.TotalIsBagSize | RunLoopCF-1153.18/CFBasicHash.c:931-941 | The sum of the counts is the size of the multiset |
| HashTable.Table.AddIntValueAndInc | RunLoopCF-1153.18/CFBasicHash.c:1413-1443 | An absent key is added with its number after every number from there on was moved, stored and read back, also when the table is rehashed in between; a present key changes nothing |
| HashTable.Table.RemoveIntValueAndDec | RunLoopCF-1153.18/CFBasicHash.c:1445-1465 | A key with the number is taken away and every higher number is moved, stored and read back |
| HashNumbering.RenumberedRight | RunLoopCF-1153.18/CFBasicHash.c:1428-1437 | Every number becomes the next or the previous one exactly when none that moves becomes a stand-in or passes the largest word |
| HashNumbering.StandInLost | RunLoopCF-1153.18/CFBasicHash.c:1428-1437 | The number 0xa7baadb0 moved up reads back as 0 |
| HashNumbering.OrderedRenumberable | RunLoopCF-1153.18/CFBasicHash.c:1413-1443 | A dictionary that enumerates its keys has room for one more number exactly while it has fewer than 0xa5baadb9 keys |
| HashOrders.InsertKey | RunLoopCF-1153.18/CFBasicHash.c:1413-1443 | A table whose numbers enumerate its keys enumerates them afterwards with the new key at its position, exactly while it has fewer than 0xa5baadb9 keys |
| HashOrders.RemoveKeyAt | RunLoopCF-1153.18/CFBasicHash.c:1445-1465 | A table whose numbers enumerate its keys enumerates the others after the key at a position is removed |
| HashOrders.InsertAndRemove | RunLoopCF-1153.18/CFBasicHash.c:1413-1465 | Inserting a key with a number and removing that number leaves the table standing for the map it stood for, exactly when no number that moved became a stand-in or passed the largest word |
| HashNumbering.InsertOrders | RunLoopCF-1153.18/CFBasicHash.c:1413-1443 | Numbers that enumerate the keys enumerate them with the new key inserted at its position exactly when every number that moves can be kept |
| HashNumbering.RemoveOrders | RunLoopCF-1153.18/CFBasicHash.c:1445-1465 | Numbers that enumerate the keys enumerate the others after the key at a position is removed |
| HashNumbering.RemoveUndoesInsert | RunLoopCF-1153.18/CFBasicHash.c:1413-1465 | Removing the number of a key just inserted restores every entry exactly when every number that moved was kept |
| ArrayDeque.Deque.ReplaceValues | RunLoopCF-1153.18/CFArray.c:922-993 | The values before the range, the new values, the values after; room on both sides stays inside the store; in a store that is kept no bucket outside the values still holds what was a value |
| ArrayDeque.Deque.RepositionDequeRegions | RunLoopCF-1153.18/CFArray.c:775-859 | Whichever strategy is chosen, both sides lie in the store with a gap of the new length between them |
| ArrayDeque.Deque.Reallocate | RunLoopCF-1153.18/CFArray.c:795-817 | Both sides are copied apart into a larger, centred store |
| ArrayDeque.Deque.Recentre | RunLoopCF-1153.18/CFArray.c:836-858 | Both sides are moved, overlapping, in the order that overwrites neither |
| ArrayDeque.Regions.BothMovedLeft | RunLoopCF-1153.18/CFArray.c:847-851 | Moving the left side first and then the right one is right when both go left, and clearing what is exposed leaves no value behind |
| ArrayDeque.Regions.BothMovedRight | RunLoopCF-1153.18/CFArray.c:852-857 | Moving the right side first and then the left one is right when both go right |
| ArrayDeque.Deque.RemoveAllValues | RunLoopCF-1153.18/CFArray.c:762-771 | No values, and no store |
| Bits.RoundUpCapacityIs | RunLoopCF-1153.18/CFArray.c:46-49 | The rounded capacity is the least power of two above the one asked for, at least 4, and in the range of a 32-bit shift |
| ArraySort.BSearchValues | RunLoopCF-1153.18/CFArray.c:1074-1100 | The least index of the range whose value is not less than the one sought, for every length; every place looked at is inside the range, and there are no more of them than the length has bits and two |
| ArraySort.SortedParted | RunLoopCF-1153.18/CFArray.c:1074-1100 | Every range sorted by a total preorder is one the search is right on |
| ArraySort.ZSort | RunLoopCF-1153.18/CFArray.c:1006-1018 | The range is sorted, nothing outside it changes, the values are the same, and equivalent values keep their order |
| Order.ExchangeKeepsClass | RunLoopCF-1153.18/CFArray.c:1006-1018 | Exchanging neighbours of which the right is less keeps the order within every class of equivalent values |
| Order.ClassMeans | RunLoopCF-1153.18/CFArray.c:1006-1018 | A class is what is left of a sequence when the values less or greater than the given one are taken out |
| Utf8RoundTrip.RoundTrip | RunLoopCF-1153.18/CFBuiltinConverters.c:946-1105 | Decoding the encoding of any well-formed UTF-16 text consumes all of it and gives the text |
| Utf8RoundTrip.BytesRoundTrip | RunLoopCF-1153.18/CFBuiltinConverters.c:946-1105 | Bytes that are a sequence of characters of section 4 of RFC 3629 decode to well-formed text whose encoding is those bytes |
| Utf8RoundTrip.LongestLegal | RunLoopCF-1153.18/CFBuiltinConverters.c:1013-1105 | In strict mode the bytes decoded are the longest prefix made of characters of RFC 3629 and lone bytes 0xA9 |
| Utf8RoundTrip.LegalIsDecoded | RunLoopCF-1153.18/CFBuiltinConverters.c:1013-1105 | In strict mode bytes are decoded to the last if and only if they are made of such pieces |
| Utf8RoundTrip.EnoughRoom | RunLoopCF-1153.18/CFBuiltinConverters.c:1025-1105 | With room for all units, or only counting, the decoder stops exactly where unlimited decoding does |
| Utf8Decoder.SplitIsPair | RunLoopCF-1153.18/CFBuiltinConverters.c:1091-1099 | Bytes are consumed and not written if and only if the limit falls between the halves of a pair of the whole decoding, which a caller can tell before |
| Utf8RoundTrip.EncodeAndDecode | RunLoopCF-1153.18/CFBuiltinConverters.c:946-1105 | Encoding a well-formed text into an array and decoding that array gives the text, if its encoding has fewer than 2^32 bytes |
| Utf8RoundTrip.TightLimitLoses | RunLoopCF-1153.18/CFBuiltinConverters.c:1091-1099 | With a limit of one unit the four bytes of a code point beyond U+FFFF are consumed and nothing is written for them |
| Utf8RoundTrip.CountedIsDecoded | RunLoopCF-1153.18/CFBuiltinConverters.c:1125-1192 | The counting pass finds the number of units decoded if and only if the decoder does not stop at a value beyond all code points; in strict mode always |
| Utf8RoundTrip.LenientCountDiffers | RunLoopCF-1153.18/CFBuiltinConverters.c:1125-1192 | In lenient mode F5 80 80 80 is counted as one unit but not decoded |
| Utf8RoundTrip.FromUTF8Len | RunLoopCF-1153.18/CFBuiltinConverters.c:1125-1192 | The loop of the counting pass finds that count |
| Utf8Decoder.FromUTF8 | RunLoopCF-1153.18/CFBuiltinConverters.c:1013-1105 | The units written are the decoding of the first `whole` bytes, these are all the bytes consumed unless the limit falls between the halves of a pair, and the decoder goes on as long as bytes can be taken and units fit |
| Utf8Decoder.IsLegalUTF8 | RunLoopCF-1153.18/CFBuiltinConverters.c:999-1011 | For the length the first byte asks for, exactly the characters of section 4 of RFC 3629 |
| Utf8Decoder.AssembledIsPayload | RunLoopCF-1153.18/CFBuiltinConverters.c:1046-1056 | Subtracting the magic offset once takes all marks away |
| Utf8Decoder.StrictStep | RunLoopCF-1153.18/CFBuiltinConverters.c:1025-1105 | In strict mode one turn of the loop takes exactly one character of RFC 3629, for its code point, or a lone 0xA9, as the replacement character |
| Utf8Decoder.LenientStep | RunLoopCF-1153.18/CFBuiltinConverters.c:1025-1083 | In lenient mode the first byte alone says how many bytes are taken, C0, C1 and overlong forms included, and their bits are shifted together in 32 bits; half a surrogate pair stops the decoder and a value beyond all code points is refused |
| Utf8Encoder.ToUTF8 | RunLoopCF-1153.18/CFBuiltinConverters.c:946-986 | The bytes are the encoding of the consumed units, which never end inside a pair; the encoder stops at the first code point at which the text ends, a lone surrogate is next, the limit is reached, or the room modulo 2^32 is too small for a code point of several bytes; nothing more could be encoded there if and only if `RoomCut` does not hold of text and limit |
| Utf8Encoder.StuckUnlessCut | RunLoopCF-1153.18/CFBuiltinConverters.c:974-979 | Where it stops nothing more could be encoded, if and only if nowhere in the text 2^32 bytes of room or more are left whose low 32 bits are too small for the next code point, which a caller can tell before |
| Utf8Encoder.StuckIsStopped | RunLoopCF-1153.18/CFBuiltinConverters.c:974-979 | It stops wherever nothing more can be encoded, and elsewhere exactly when 2^32 bytes of room or more are left |
| Utf8Encoder.RoomLost | RunLoopCF-1153.18/CFBuiltinConverters.c:923-979 | With a limit of exactly 2^32 it stops before a single two-byte character |
| Utf8Encoder.CountAndEncode | RunLoopCF-1153.18/CFBuiltinConverters.c:946-1123 | Counting, allocating and encoding gives the whole encoding of a well-formed text exactly when that has fewer than 2^32 bytes |
| Utf8Encoder.ToUTF8Core | RunLoopCF-1153.18/CFBuiltinConverters.c:923-944 | The fall-through writes put the bytes of section 3 of RFC 3629 for a code point, and for every value up to 0x7FFFFFFF one to six bytes whose marks and bits are those of section 2 of RFC 2279, or nothing if they do not fit; above 0x7FFFFFFF, where no caller goes, they put FF BD, which is no UTF-8, for the replacement character |
| Utf8Encoder.ToUTF8Len | RunLoopCF-1153.18/CFBuiltinConverters.c:1108-1123 | The loop counts the bytes of every pair and unit, three for a lone surrogate, modulo 2^32 |
| Utf8Encoder.CountAgrees | RunLoopCF-1153.18/CFBuiltinConverters.c:1108-1123 | The unbounded count is the length of what the encoder produces if and only if the text is well formed |
| Utf8Encoder.CountAgreesBelow | RunLoopCF-1153.18/CFBuiltinConverters.c:1108-1123 | Modulo 2^32 it is the length of a well-formed text exactly when that is below 2^32, and of no other text that is counted without wrapping |
| Utf8Encoder.CountWraps | RunLoopCF-1153.18/CFBuiltinConverters.c:1108-1123 | A text of 2^32 - 2 units that starts with a lone surrogate is counted as 0 bytes |
| Utf8.OctetsRead | RunLoopCF-1153.18/CFBuiltinConverters.c:913-944 | The bytes of a code point are a character of the syntax, which stands for it |
| Utf8.CharWrites | RunLoopCF-1153.18/CFBuiltinConverters.c:999-1011 | A character of the syntax stands for a code point, whose bytes it is |
| Utf8.UnitsMean | RunLoopCF-1153.18/CFBuiltinConverters.c:1085-1098 | Up to 0xFFFF a code point is one unit, above it a high and a low surrogate, whose ten bits each stand side by side over 0x10000 |
| BinaryHeap.Heap.AddValue | RunLoopCF-1153.18/CFBinaryHeap.c:367-396 | Heap order is kept and the values are those before and the new one, which stays last if its parent is not greater |
| BinaryHeap.Heap.RemoveMinimumValue | RunLoopCF-1153.18/CFBinaryHeap.c:398-430 | Heap order is kept and the values are those before without the root, for which the callback answers 1 against none of them, or which as a pointer is greater than none |
| BinaryHeap.Run | RunLoopCF-1153.18/CFBinaryHeap.c:367-430 | Any sequence of additions and removals makes of a heap what it makes of a priority queue: each removal takes a value for which the callback answers 1 against none of those that are there, or the least pointer, and nothing else changes |
| BinaryHeap.NothingLost | RunLoopCF-1153.18/CFBinaryHeap.c:367-430 | Over a whole run, what was there and what was added is what was taken and what is left |
| BinaryHeap.TakenOnce | RunLoopCF-1153.18/CFBinaryHeap.c:367-430 | In the order of pointers the operations determine all values taken |
| BinaryHeap.SortPointers | RunLoopCF-1153.18/CFBinaryHeap.c:212-337 | A heap without a callback, filled and read, sorts numbers |
| BinaryHeap.SortByRank | RunLoopCF-1153.18/CFBinaryHeap.c:367-430 | A heap with a callback that answers 1 exactly when the first value has the higher rank gives its values back by ascending rank |
| BinaryHeap.CallbackTotal | RunLoopCF-1153.18/CFBinaryHeap.c:386-424 | What is asked of a callback: no 1 is answered by a 1, and not being answered by a 1 is transitive |
| BinaryHeap.PointersTotal | RunLoopCF-1153.18/CFBinaryHeap.c:383-396 | The order of pointers is one a heap can keep |
| BinaryHeap.RootLeast | RunLoopCF-1153.18/CFBinaryHeap.c:308-319 | The root of a heap is a least value |
| BinaryHeap.Heap.constructor | RunLoopCF-1153.18/CFBinaryHeap.c:212-269 | A heap of given values; values in heap order, such as the buckets of a heap that is copied, keep their places |
| BinaryHeap.Heap.GetValues | RunLoopCF-1153.18/CFBinaryHeap.c:321-337 | The values, none of which the callback answers 1 for against a later one, or by ascending pointers, each as often as in the heap, which does not change |
| BinaryHeap.SiftUp | RunLoopCF-1153.18/CFBinaryHeap.c:383-396 | A value less than its parent changes places with it and is then out of order at most there |
| BinaryHeap.SiftDown | RunLoopCF-1153.18/CFBinaryHeap.c:414-428 | A value not less than its least child changes places with it and is then out of order at most there |
| BigNumber.BigNum.Add | RunLoopCF-1153.18/CFBigNumber.c:465-509 | For any digits: with equal signs the sum and its carry are exact if and only if no place needs more than 32 bits, with different signs if and only if no place stays negative after borrowing; for digits in range both always hold, different signs leave no borrow, and all digits of the result are in range if and only if, for equal signs, no place of the sum is exactly 10^9 (stated on the values of the lower digits) |
| BigSums.SumExact | RunLoopCF-1153.18/CFBigNumber.c:468-480 | Adding digit by digit in 32 bits gives the sum if and only if every place fits |
| BigSums.DifferenceExact | RunLoopCF-1153.18/CFBigNumber.c:491-501 | Subtracting digit by digit with borrows of 10^9 gives the difference if and only if no place stays negative |
| BigNumber.BigNum.Sub | RunLoopCF-1153.18/CFBigNumber.c:511-515 | The exact difference under the same conditions, and when its digits are in range |
| BigNumber.BigNum.Neg | RunLoopCF-1153.18/CFBigNumber.c:448-463 | The negative; a zero keeps the sign it has |
| BigNumber.BigNum.Compare | RunLoopCF-1153.18/CFBigNumber.c:416-431 | Equal exactly for the same sign and digits, otherwise decided by the sign or the highest digit that differs; for digits in range the order of the values, if and only if it does not compare two zeros of different sign |
| BigNumber.BigNum.AbsoluteLessThan | RunLoopCF-1153.18/CFBigNumber.c:435-445 | For digits in range, the order of the values without signs |
| BigSums.GapIsLimit | RunLoopCF-1153.18/CFBigNumber.c:468-480 | With lower digits in range, a digit is 10^9 exactly when the sum of the lower digits lies in the gap below the next carry |
| BigDigits.HighestDecides | RunLoopCF-1153.18/CFBigNumber.c:435-445 | The highest digit that differs decides the order |
| BigDigits.UniqueDigits | RunLoopCF-1153.18/CFBigNumber.c:416-445 | Digits in range are determined by their value |
| BigNumberText.ToCString | RunLoopCF-1153.18/CFBigNumber.c:518-538 | The sign asked for and the digits of the number the forty-five places stand for, which is the value when digits are in range: with leading zeros the last ones, as many as fill the room; without, no zero in front and the first ones the room takes, all of them if it takes them; a minus exactly for a sign, a plus exactly when asked for without one |
| BigNumberText.TextShows | RunLoopCF-1153.18/CFBigNumber.c:518-538 | The same of the specification text: sign, length, leading zero and the number its digits stand for |
| BigNumberText.TextCut | RunLoopCF-1153.18/CFBigNumber.c:518-538 | Without leading zeros, less room cuts the same text shorter |
| Decimals.DigitLiterals | RunLoopCF-1153.18/CFBigNumber.c:540-571 | The digits are the characters 0 to 9 |
| BigNumberText.FromCString | RunLoopCF-1153.18/CFBigNumber.c:540-571 | The sign of the text, and of any number of digits thirty-six places and above them a digit cut to 32 bits, in range exactly when that digit is |
| BigNumberText.ReadAsExact | RunLoopCF-1153.18/CFBigNumber.c:540-571 | That is the number written exactly when the number is below 2^32 times 10^36 |
| BigNumberText.ReadAsLargest | RunLoopCF-1153.18/CFBigNumber.c:540-571 | From 2^63 times thirty-six places on the top digit read is 4294967295 |
| BigNumberText.WriteAndRead | RunLoopCF-1153.18/CFBigNumber.c:518-571 | A number written with enough room, with or without zeros and plus sign, and read again has the same sign, and the same digits exactly when they are all in range |
| BigNumberText.RoundTrip | RunLoopCF-1153.18/CFBigNumber.c:518-571 | Text written with enough room, with or without zeros and plus sign, has the sign of the number and digits that stand for it |
| BigNumberText.PrintsRight | RunLoopCF-1153.18/CFBigNumber.c:518-538 | For digits up to 10^9 the printed places stand for the value if and only if no digit is 10^9 |
| BigNumberText.SumMisprinted | RunLoopCF-1153.18/CFBigNumber.c:471-538 | 999999999 and 1 sum to a digit of 10^9, which is printed as 100000000 |
| BigNumberInts.InitWithInt | RunLoopCF-1153.18/CFBigNumber.c:90-157 | Every value of every signed type, the most negative too, is held exactly |
| BigNumberInts.GetInt | RunLoopCF-1153.18/CFBigNumber.c:211-257 | Computed in the wrapping arithmetic of the type from any digits, the result is the value modulo the number of values of the type, and the value itself if and only if the type holds it |
| BigNumberInts.CreateWithBigNum | RunLoopCF-1153.18/CFBigNumber.c:366-413 | For digits up to 10^9, the value in a type that holds it while no smaller one holds both it and its negative, with the most negative ones of the two smallest types in the next, or nothing, when no type holds it |
| BigNumberInts.SmallestForBoth | RunLoopCF-1153.18/CFBigNumber.c:366-413 | The type chosen holds the value and no smaller type holds both it and its negative; without one no type holds the value |
| BigNumberInts.TypeRanges | RunLoopCF-1153.18/CFBigNumber.c:366-413 | The values that get 8, 16, 32 and 64 bits, in numbers: the two smallest leave out their most negative value, the next two do not |
| BigNumberInts.IntType.Ranges | RunLoopCF-1153.18/CFBigNumber.c:211-257 | The range of each type, in numbers |
| BigNumberInts.LimitOrder | RunLoopCF-1153.18/CFBigNumber.c:377-408 | Comparing digits up to 10^9 with the limits of a type from the highest down is right, because no digit of a limit is 0 |
| BigNumberRuns.AddUp | RunLoopCF-1153.18/CFBigNumber.c:465-480 | Any number of summands with digits in range adds up to their sum less 10^45 for each carry, though digits of 10^9 come and go on the way |
| BigNumberRuns.CreateSum | RunLoopCF-1153.18/CFBigNumber.c:366-509 | An integer made of a sum below 10^45 is that sum, even if it would be printed wrong |
| BigNumberRuns.LooseDifferenceWrong | RunLoopCF-1153.18/CFBigNumber.c:465-509 | A sum with a digit of 10^9 that is then subtracted gives a wrong difference: 10^18 less the sum of 999999999000000001 and 10^9 does not come out as -1 |
| BigNumberRuns.SignedZeroDiffers | RunLoopCF-1153.18/CFBigNumber.c:416-509 | The sum of -5 and 5 does not compare equal to zero |
| BigNumberRuns.TooLongReadsZero | RunLoopCF-1153.18/CFBigNumber.c:540-571 | 2^32 followed by thirty-six zeros is read as 0 |
| BitVector.Vector.InternalMap | RunLoopCF-1153.18/CFBitVector.c:284-316 | Exactly the bits of the range are mapped, over part of a bucket, whole buckets and part of a bucket, and the context counts exactly those that are counted |
| BitVector.Vector.GetCountOfBit | RunLoopCF-1153.18/CFBitVector.c:323-344 | The number of places in the range with the value, and no bit changes |
| BitVector.Vector.SetCount | RunLoopCF-1153.18/CFBitVector.c:437-473 | The first bits stay and new bits are zero, whatever a larger vector left behind |
| BitVector.Vector.SetAllBits | RunLoopCF-1153.18/CFBitVector.c:513-528 | Every bit has the value |
| BitVector.Vector.SetBits | RunLoopCF-1153.18/CFBitVector.c:501-511 | The bits of the range have the value, the others stay |
| BitVector.Vector.FlipBits | RunLoopCF-1153.18/CFBitVector.c:482-492 | The bits of the range are flipped, the others stay |
| BitVector.Vector.SetBitAtIndex | RunLoopCF-1153.18/CFBitVector.c:121-129 | One bit has the value, the others stay |
| BitVector.Vector.FlipBitAtIndex | RunLoopCF-1153.18/CFBitVector.c:131-135 | One bit is flipped, the others stay |
| BitVector.Vector.constructor | RunLoopCF-1153.18/CFBitVector.c:230-257 | Zeros, or the first bits of the bytes |
| BitBuckets.MaskBits | RunLoopCF-1153.18/CFBitVector.c:107-113 | The shifted mask has exactly the bits from the first to the last |
| BitBuckets.NibblesCount | RunLoopCF-1153.18/CFBitVector.c:323-333 | The two table look-ups count the bits that are set |
| BitVector.CountIsSize | RunLoopCF-1153.18/CFBitVector.c:323-344 | What a map counts is the number of places whose bit is counted |

## Left out

Property lists:

- Key-path filtering, the options for mutable leaves (the reader's decision which results enter the memo table is
  there), and sharing between results: a parsed property list is a value.
- Errors of the stream beyond what `answers` say, and the variant that counts on a null stream.
- Graphs have children with smaller numbers than parents, which names every finite acyclic graph; the writer on a
  cyclic one does not end and is not modelled.
- A property list of 2^32 or more flattened objects, or of 2^63 bytes, is excluded by `CanWrite`.
- Strings are sequences of UTF-16 units. Bytes from 0x80 on in an ASCII string become the unit of the same value, as
  `CFStringEncodings.c` has it, so decoding one never fails.
- A dictionary is its pairs in order and a set its members; dropping later equal keys and members, as building a hash
  table of them does, is not modelled.
- PlistLookup.GetOffsetForValue: keys that are not strings are not modelled, because comparing them needs `CFEqual` on
  numbers and dates, nor are strings beyond ASCII whose MacRoman bytes are at hand. Bytes are at hand for every string
  of fewer than 16 units (line 990), so short keys without them are calls the code does not make. Every key reference
  must lead to a place before the offset table: for one that does not the code reads outside the objects.
- The lookup of an item of an array by index, the older two-argument forms and the writer with an estimate.

Hash tables:

- Double and exponential hashing, the hash cache, indirect keys, and the counter of mutations.
- Retain and release callbacks are the identity; equality and hash of keys come from a function of their identity.
- The halts on an immutable table, on the two stand-in words and on a capacity no table has are preconditions.
- HashTable.Table.FindBucketNoCollision: requires that no bucket is freed, as the comment on it says.
- HashTable.Table.RemoveIntValueAndDec: requires that some key has the number, because without one the code writes
  outside the arrays, and that such keys have a count of 1, because with more the code leaves a count on a bucket it
  marks as freed.
- GetElements, enumeration, copying and descriptions only read the buckets that the operations here maintain.

Arrays, heap, bit vectors:

- Stores of 2^30 or more buckets, where the 32-bit shift that rounds a capacity overflows.
- Setting the capacity of an existing array store, immutable arrays, Objective-C dispatch and `CFQSortArray`.
- ArraySort.BSearchValues: requires a range shorter than 2^31, where `1 << lg` is an `int`.
- BinaryHeap.Heap.constructor: the compare context, retain and release are not modelled; a comparison is a function of
  its values, or the order of pointers.
- Counting and testing membership by equality in a heap, and removing all its values.
- Reading unaligned bits into bytes, comparing bit vectors, and searching for the first or last bit.

UTF-8:

- The decomposing and HFS+ modes and lossy conversion, which need tables not in these files; the lenient flag is a
  parameter of the decoder.

Big numbers:

- BigNumberText.FromCString: requires digits after an optional sign; other text is not modelled. `atol` is taken to
  stop at the largest `long`.
- BigNumberInts.CreateWithBigNum: requires digits up to 10^9, as the numbers made here from integers and from sums of
  digits in range have them.
- BigNumberInts.InitWithInt: the negative of the most negative value is taken to wrap around, where C leaves it
  undefined.
- BigNumberText.ToCString: requires room for the sign and the terminating zero.
- The unsigned initialisers and getters are those of the signed ones without the sign.
- `BigNumberInts.InitWithInt` and `GetInt` are one method each for the five widths that the source writes out one by
  one.
