# Coalesced file converter, modelled in Dafny

This project models the core of a converter for the "Coalesced" configuration archives of the Mass Effect games. The converter reads a binary archive and turns it into an INI-like text document. It also turns such a document back into an archive. There are three binary layouts:

- Mass Effect 1/2 Legendary Edition (ME12LE): counted UTF-16 or ASCII strings, one string pair per value.
- Mass Effect 2 (ME2): a signature, then per file a name and the file's INI text as one string.
- Mass Effect 3 (ME3): a header, then a CRC-sorted string table, a Huffman tree, a nested index of files, sections and fields, and Huffman-compressed values.

The older converters (CoalescedConverter, CoalescedConverterME12LE and CoalescedConverterME3LE) and their own stream, CoalescedFileStream, are modelled too.

The model is split into layers:

- Value types: the document tree (files, sections, fields, values), strings as sequences of UTF-16 code units, and bytes.
- Pure functions: each binary layout and text format has a reader and a writer, and each reader follows its writer on every branch and every error.
- Classes: the stateful pieces become classes whose methods update their fields. These are the streams, BinaryBuffer and its enumerator, StringTable, the Huffman compressor and its bit packer, the INI reader and writer, and the converters. Each method is proved against the pure functions.
- Round-trip lemmas connect the pieces. Decoding what an encoder wrote gives the document back; where the source changes the document on the way, the lemmas name the change (lower-cased ME3 names, the placeholder section of ME12LE, the file split of ME2).

Exceptions become constructors of an `Error` datatype, returned in a `Result`. File and stream I/O become byte sequences, or text lines, passed in and out.

## Model

| member | source | states |
|---|---|---|
| Primitives.Int32RoundTrip | CoalescedConvert/CoalFileStream.cs:39-61 | the 4 little-endian bytes written for a signed 32-bit value decode back to that value |
| Primitives.UInt32RoundTrip | CoalescedConvert/CoalFileStream.cs:63-85 | the 4 little-endian bytes written for an unsigned 32-bit value decode back to it as unsigned |
| Primitives.Int16RoundTrip | CoalescedConvert/CoalFileStream.cs:87-121 | signed and unsigned 16-bit values survive their 2-byte little-endian encoding |
| Primitives.Signed16 | CoalescedConvert/CoalFileStream.cs:87-97 | the reinterpreted short is congruent to the unsigned halfword modulo 2^16 |
| Primitives.ToLower | CoalescedConvert/StringTable.cs:18 | lower-casing keeps the length and maps each code unit independently (A-Z only; see Left out) |
| Primitives.ToLowerIdempotent | CoalescedConvert/StringTable.cs:18 | lower-casing twice is the same as lower-casing once, so a stored name is already its own key |
| ByteCodec.ReadInt32Written | CoalescedConvert/CoalFileStream.cs:39-61 | reading an int where one was written, inside any surrounding bytes, gives the value and advances 4 |
| ByteCodec.ReadUInt32Written | CoalescedConvert/CoalFileStream.cs:63-85 | the same for an unsigned int |
| ByteCodec.Read16Written | CoalescedConvert/CoalFileStream.cs:87-121 | the same for signed and unsigned shorts, advancing 2 |
| ByteCodec.ReadAll | CoalescedConvert/ME3Converter.cs:193-204 | a counted read loop over stored items returns every item in order and ends right after the last one |
| Buffers.CapacityZeroNeverGrows | CoalescedConvert/BinaryBuffer.cs:41 | from capacity 0, the as-written doubling loop does not stop for any positive target (see Findings) |
| Buffers.Grown | CoalescedConvert/BinaryBuffer.cs:36-46 | the corrected new capacity is at least the old capacity and at least the target, and below twice the target whenever it grows |
| Buffers.GrownAgrees | CoalescedConvert/BinaryBuffer.cs:36-46 | wherever the as-written loop stops, it yields the corrected capacity, and it only stops when the old capacity is positive or nothing is requested |
| Buffers.BinaryBuffer.constructor | CoalescedConvert/BinaryBuffer.cs:18-22 | a new buffer is empty and has capacity 32 |
| Buffers.BinaryBuffer.WithCapacity | CoalescedConvert/BinaryBuffer.cs:24-29 | a buffer made with a non-negative capacity is empty and has that capacity |
| Buffers.BinaryBuffer.Create | CoalescedConvert/BinaryBuffer.cs:24-29 | a negative capacity is refused with ArgumentOutOfRange, and only a negative one |
| Buffers.BinaryBuffer.SetCapacity | CoalescedConvert/BinaryBuffer.cs:36-46 | the contents never change; the buffer grows to the corrected capacity exactly when it was smaller than asked |
| Buffers.BinaryBuffer.Clear | CoalescedConvert/BinaryBuffer.cs:49-52 | the contents become empty |
| Buffers.BinaryBuffer.WriteByte | CoalescedConvert/BinaryBuffer.cs:95-99 | the contents grow by exactly that byte |
| Buffers.BinaryBuffer.WriteInt | CoalescedConvert/BinaryBuffer.cs:63-70 | the contents grow by exactly the 4 little-endian bytes of the value |
| Buffers.BinaryBuffer.WriteUInt | CoalescedConvert/BinaryBuffer.cs:72-79 | the contents grow by exactly the 4 little-endian bytes of the unsigned value |
| Buffers.BinaryBuffer.WriteShort | CoalescedConvert/BinaryBuffer.cs:81-86 | the contents grow by exactly the 2 little-endian bytes of the value |
| Buffers.BinaryBuffer.WriteUShort | CoalescedConvert/BinaryBuffer.cs:88-93 | the contents grow by exactly the 2 little-endian bytes of the unsigned value |
| Buffers.BinaryBuffer.WriteBytes | CoalescedConvert/BinaryBuffer.cs:101-105 | the contents grow by exactly the given bytes |
| Buffers.BinaryBuffer.WriteBuffer | CoalescedConvert/BinaryBuffer.cs:54-61 | the contents grow by exactly the other buffer's contents, which stay unchanged |
| Buffers.BinaryBuffer.WriteME3String | CoalescedConvert/BinaryBuffer.cs:107-124 | the contents grow by the ME3 string encoding: a 16-bit length, then the low byte of each character |
| Buffers.BinaryBufferEnumerator.constructor | CoalescedConvert/BinaryBuffer.cs:154-158 | a new enumerator stands before the first byte |
| Buffers.BinaryBufferEnumerator.MoveNext | CoalescedConvert/BinaryBuffer.cs:164-168 | the index advances while it is below the length, and the result says whether a byte is now current |
| Buffers.BinaryBufferEnumerator.Current | CoalescedConvert/BinaryBuffer.cs:160 | the byte at the index is returned when the index is inside the backing array, even past the written length; IndexOutOfRange otherwise |
| Buffers.BinaryBufferEnumerator.Reset | CoalescedConvert/BinaryBuffer.cs:170-173 | the index is set to 0, not before the start |
| Buffers.Enumerate | CoalescedConvert/BinaryBuffer.cs:139-142 | enumerating a buffer yields exactly its contents |
| Buffers.EnumerateAfterReset | CoalescedConvert/BinaryBuffer.cs:170-173 | enumerating after Reset yields the contents without the first byte |
| Crc32.HardCodedEntries | CoalescedConvert/Crc32.cs:11-32 | the table's entry for 0 is 0 and its entry for 1 is the polynomial 0x04C11DB7 |
| Crc32.GenerateTable | CoalescedConvert/Crc32.cs:14-32 | the table has 256 entries, entry i being i << 24 after eight shift-and-XOR rounds of the polynomial, the two hard-coded entries included |
| Crc32.Hash | CoalescedConvert/Crc32.cs:34-43 | given the generator's table, the loop computes the complement of the byte-wise CRC fold from 0xFFFFFFFF over the string's low bytes |
| Crc32.HashOfEmpty | CoalescedConvert/Crc32.cs:34-43 | the hash of the empty string is 0 |
| Crc32.LowBytesDecide | CoalescedConvert/Crc32.cs:38-40 | the hash depends only on the low byte of each character |
| Strings.Compare | CoalescedConvert/StringTable.cs:49-57 | the comparer answers -1, 0 or 1 |
| Strings.CompareIsPreorder | CoalescedConvert/StringTable.cs:49-57 | the comparer is reflexive, antisymmetric and transitive, and 0 exactly on equal CRC keys |
| Strings.StringTable.constructor | CoalescedConvert/StringTable.cs:10-14 | a new table is empty |
| Strings.StringTable.Count | CoalescedConvert/StringTable.cs:27 | the count is the number of distinct names |
| Strings.StringTable.Add | CoalescedConvert/StringTable.cs:16-25 | a known lower-cased name changes nothing; a new one is appended and mapped to its index; TooManyStrings exactly when the table then holds more than 65535 names |
| Strings.StringTable.GetId | CoalescedConvert/StringTable.cs:30-33 | the id of a known name is its index truncated to 16 bits, and 0 for an unknown name |
| Strings.StringTable.GetString | CoalescedConvert/StringTable.cs:35-38 | an id inside the table gives its name, any other id ArgumentOutOfRange |
| Strings.StringTable.Sort | CoalescedConvert/StringTable.cs:40-45 | the names are permuted into CRC order, and the map is renumbered to the new positions |
| Strings.Renumbered | CoalescedConvert/StringTable.cs:44 | after renumbering, the map is the inverse of the name list |
| Strings.IdRoundTrip | CoalescedConvert/StringTable.cs:30-38 | looking up the id of an added name gives back the lower-cased name |
| ExtendedAscii.Counts | CoalescedConvert/ExtendedAsciiEncoding.cs:11-35 | byte count, char count and both maximum counts equal the input length |
| ExtendedAscii.CharsOfBytes | CoalescedConvert/ExtendedAsciiEncoding.cs:13-31 | decoding the encoding gives the string back exactly when every character is at most 0xFF |
| ExtendedAscii.BytesOfChars | CoalescedConvert/ExtendedAsciiEncoding.cs:13-31 | encoding the decoding gives the bytes back, always |
| ExtendedAscii.GetBytes | CoalescedConvert/ExtendedAsciiEncoding.cs:13-20 | the target array receives the low byte of each character in its range, and nothing else changes |
| ExtendedAscii.GetChars | CoalescedConvert/ExtendedAsciiEncoding.cs:24-31 | the target array receives each byte widened to a character in its range, and nothing else changes |
| FormatDetection.DetectME3 | CoalescedConvert/CoalescedFormatDetector.cs:21-47 | the result is ME3LE exactly when the first int is the ME3 signature |
| FormatDetection.DetectME12 | CoalescedConvert/CoalescedFormatDetector.cs:21-47 | otherwise it is ME12LE exactly when 8 bytes exist, the first int is in 1..255 and the second in -259..-1 |
| FormatDetection.ShortInput | CoalescedConvert/CoalescedFormatDetector.cs:26-39 | fewer than 4 bytes are never ME3LE and fewer than 8 never ME12LE, the unread bytes staying zero |
| FormatDetection.MissingFile | CoalescedConvert/CoalescedFormatDetector.cs:23 | a missing file is detected as Unknown |
| FormatDetection.SignatureBytes | CoalescedConvert/CoalescedFormatDetector.cs:19 | the ME3 signature is the bytes "mrmf" read as a little-endian int |
| Converters.Create | CoalescedConvert/CoalConverter.cs:15-28 | each known format gets the converter for that format; Unknown gets UnknownCoalescedFormat |
| Converters.Load | CoalescedConvert/CoalConverter.cs:15-28 | loading through a created converter gives exactly that format's load result |
| Converters.CreateAndLoad | CoalescedConvert/CoalConverter.cs:15-28 | Unknown fails before anything is read; any other format loads as its converter does |
| Sorting.InsertSorted | CoalescedConvert/HuffmanCompressor.cs:133 | inserting into a sorted queue keeps it sorted and adds exactly that item |
| Sorting.InsertAllStable | CoalescedConvert/HuffmanCompressor.cs:133 | the insertion sort is sorted, a permutation, and keeps the original order among equal weights, as a stable OrderBy does |
| Sorting.SortBy | CoalescedConvert/HuffmanCompressor.cs:127-133 | the imperative sort yields the stable insertion sort, so it is sorted and a permutation |
| Utf8.EncodeChar | CoalescedConvert/CoalescedFileStream.cs:186 | each character becomes 1 to 3 bytes |
| Utf8.DecodeEncode | CoalescedConvert/CoalescedFileStream.cs:150-197 | decoding the UTF-8 encoding of a surrogate-free string gives the string back |
| Utf8.EncodeAscii | CoalescedConvert/CoalescedFileStream.cs:186 | ASCII characters encode to themselves, one byte each |
| StringCodec.ME12RoundTrip | CoalescedConvert/CoalFileStream.cs:144-217 | an ME12LE string written anywhere (lines 201-217) reads back as itself (lines 144-161) and the read ends right after it |
| StringCodec.ME2RoundTrip | CoalescedConvert/CoalFileStream.cs:162-232 | an ME2 string of NUL-free low characters, written by lines 218-232, reads back as itself by lines 162-177 |
| StringCodec.ME3RoundTrip | CoalescedConvert/CoalFileStream.cs:178-259 | an ME3 string of low characters shorter than 0x8000, written by lines 233-259, reads back as itself by lines 178-195 |
| StringCodec.ME3LongStringRejected | CoalescedConvert/CoalFileStream.cs:178-259 | an ME3 string of 0x8000 to 0xFFFF characters is written but reads back as a negative-length error |
| StringCodec.UnknownFormatFails | CoalescedConvert/CoalFileStream.cs:196-261 | with an unknown format, string reads and writes fail |
| StringCodec.StringRoundTrip | CoalescedConvert/CoalFileStream.cs:142-262 | the format dispatch reads back what it wrote, for every known format |
| CoalStream.CoalFileStream.constructor | CoalescedConvert/CoalFileStream.cs:17-22 | a new stream stands at position 0 of its data, with the given format |
| CoalStream.CoalFileStream.AtEnd | CoalescedConvert/CoalFileStream.cs:123-130 | the stream is at its end exactly when reading a byte would fail |
| CoalStream.CoalFileStream.ReadByte | CoalescedConvert/CoalFileStream.cs:123-130 | the byte at the position and the position after it, or EndOfStream |
| CoalStream.CoalFileStream.WriteByte | CoalescedConvert/CoalFileStream.cs:132-135 | the byte is written over or after the position, which advances by one |
| CoalStream.CoalFileStream.ReadInt | CoalescedConvert/CoalFileStream.cs:39-53 | the little-endian int at the position, or EndOfStream when fewer than 4 bytes remain |
| CoalStream.CoalFileStream.ReadUInt | CoalescedConvert/CoalFileStream.cs:63-77 | the same for an unsigned int |
| CoalStream.CoalFileStream.ReadShort | CoalescedConvert/CoalFileStream.cs:87-97 | the same for a short |
| CoalStream.CoalFileStream.ReadUShort | CoalescedConvert/CoalFileStream.cs:105-115 | the same for an unsigned short |
| CoalStream.CoalFileStream.WriteInt | CoalescedConvert/CoalFileStream.cs:55-61 | the 4 bytes of the value are spliced in at the position, which advances by 4 |
| CoalStream.CoalFileStream.WriteUInt | CoalescedConvert/CoalFileStream.cs:79-85 | the same for an unsigned int |
| CoalStream.CoalFileStream.WriteShort | CoalescedConvert/CoalFileStream.cs:99-103 | the 2 bytes of the value are spliced in, and the position advances by 2 |
| CoalStream.CoalFileStream.WriteUShort | CoalescedConvert/CoalFileStream.cs:117-121 | the same for an unsigned short |
| CoalStream.CoalFileStream.WriteBytes | CoalescedConvert/CoalFileStream.cs:137-140 | the bytes are spliced in at the position, which advances past them |
| CoalStream.CoalFileStream.Read | CoalescedConvert/CoalFileStream.cs:264-270 | a full read fills the buffer with the next bytes; a short read is EndOfStream |
| CoalStream.CoalFileStream.ReadBytes | CoalescedConvert/CoalFileStream.cs:272-280 | the next count bytes, or EndOfStream |
| CoalStream.CoalFileStream.ReadString | CoalescedConvert/CoalFileStream.cs:142-197 | the string read by the stream's format layout, or its error; an unknown format fails |
| CoalStream.CoalFileStream.ReadStringME12 | CoalescedConvert/CoalFileStream.cs:144-161 | a positive length prefix is an error; otherwise its negation counts UTF-16 units, and reading stops after the first NUL |
| CoalStream.CoalFileStream.ReadStringME2 | CoalescedConvert/CoalFileStream.cs:162-177 | a negative length prefix is an error; otherwise up to that many bytes are read, each a character, stopping after the first NUL |
| CoalStream.CoalFileStream.ReadStringME3 | CoalescedConvert/CoalFileStream.cs:178-195 | a 16-bit length, a negative one being an error, then that many bytes widened to characters |
| CoalStream.CoalFileStream.WriteString | CoalescedConvert/CoalFileStream.cs:199-262 | the string is written in the stream's format layout; an unknown format fails and changes nothing |
| CoalStream.CoalFileStream.WriteStringME12 | CoalescedConvert/CoalFileStream.cs:201-217 | the empty string is a 0 prefix; otherwise minus the unit count with its terminator, the UTF-16 units and a NUL unit |
| CoalStream.CoalFileStream.WriteStringME2 | CoalescedConvert/CoalFileStream.cs:218-232 | the empty string is a 0 prefix; otherwise the length plus one, the low bytes and a NUL |
| CoalStream.CoalFileStream.WriteStringME3 | CoalescedConvert/CoalFileStream.cs:233-259 | the length truncated to 16 bits, then the low byte of each character |
| CoalescedStream.ME3LERoundTrip | CoalescedConvert/CoalescedFileStream.cs:150-197 | a surrogate-free string is refused exactly when its UTF-8 form exceeds 0x7FFF bytes, and otherwise reads back as itself |
| CoalescedStream.CoalescedStringRoundTrip | CoalescedConvert/CoalescedFileStream.cs:130-199 | both layouts of the older stream read back what they wrote, when the write succeeds |
| CoalescedStream.CoalescedFileStream.Open | CoalescedConvert/CoalescedFileStream.cs:16-22 | an unknown format is refused with ArgumentOutOfRange, and only an unknown format |
| CoalescedStream.CoalescedFileStream.ReadByte | CoalescedConvert/CoalescedFileStream.cs:116-123 | the byte at the position, or EndOfStream |
| CoalescedStream.CoalescedFileStream.ReadInt | CoalescedConvert/CoalescedFileStream.cs:32-46 | the little-endian int at the position, or EndOfStream |
| CoalescedStream.CoalescedFileStream.ReadUInt | CoalescedConvert/CoalescedFileStream.cs:56-70 | the same for an unsigned int |
| CoalescedStream.CoalescedFileStream.ReadShort | CoalescedConvert/CoalescedFileStream.cs:80-90 | the same for a short |
| CoalescedStream.CoalescedFileStream.ReadUShort | CoalescedConvert/CoalescedFileStream.cs:98-108 | the same for an unsigned short |
| CoalescedStream.CoalescedFileStream.WriteInt | CoalescedConvert/CoalescedFileStream.cs:48-54 | the 4 bytes are spliced in at the position, which advances by 4 |
| CoalescedStream.CoalescedFileStream.WriteUInt | CoalescedConvert/CoalescedFileStream.cs:72-78 | the same for an unsigned int |
| CoalescedStream.CoalescedFileStream.WriteShort | CoalescedConvert/CoalescedFileStream.cs:92-96 | the 2 bytes are spliced in, and the position advances by 2 |
| CoalescedStream.CoalescedFileStream.WriteUShort | CoalescedConvert/CoalescedFileStream.cs:110-114 | the same for an unsigned short |
| CoalescedStream.CoalescedFileStream.WriteByte | CoalescedConvert/CoalescedFileStream.cs:125-128 | the byte is spliced in, and the position advances by one |
| CoalescedStream.CoalescedFileStream.Read | CoalescedConvert/CoalescedFileStream.cs:201-207 | a full read fills the buffer; a short read is EndOfStream |
| CoalescedStream.CoalescedFileStream.ReadBytes | CoalescedConvert/CoalescedFileStream.cs:209-217 | the next count bytes, or EndOfStream |
| CoalescedStream.CoalescedFileStream.ReadString | CoalescedConvert/CoalescedFileStream.cs:130-162 | the string by the ME12LE layout (trailing NULs trimmed) or by the ME3LE layout (16-bit length, UTF-8) |
| CoalescedStream.CoalescedFileStream.ReadStringME12LE | CoalescedConvert/CoalescedFileStream.cs:132-149 | a positive prefix is an error; otherwise the counted UTF-16 string up to its first NUL, with trailing NULs trimmed |
| CoalescedStream.CoalescedFileStream.ReadStringME3LE | CoalescedConvert/CoalescedFileStream.cs:150-160 | a 16-bit byte count, then that many bytes decoded as UTF-8 |
| CoalescedStream.CoalescedFileStream.WriteString | CoalescedConvert/CoalescedFileStream.cs:164-199 | the string in the stream's layout; a too-long ME3LE string is ArgumentTooLong with nothing written |
| CoalescedStream.CoalescedFileStream.WriteStringME12LE | CoalescedConvert/CoalescedFileStream.cs:166-183 | the ME12LE string bytes are written at the position |
| CoalescedStream.CoalescedFileStream.WriteStringME3LE | CoalescedConvert/CoalescedFileStream.cs:184-197 | the 16-bit length and the UTF-8 bytes, or ArgumentTooLong with nothing changed when over 0x7FFF bytes |
| Document.ApplySection | CoalescedConvert/CoalDocument.cs:55-71 | a header makes its file the current one (opening a new file when the name changes) and, with a section name, makes that section current |
| Document.ApplyField | CoalescedConvert/CoalDocument.cs:72-81 | a field line appends its value to the current field when the name repeats, and to a new field otherwise |
| Document.CoalDocument.constructor | CoalescedConvert/CoalDocument.cs:13-16 | a new document is empty and has the given format |
| Document.CoalDocument.Save | CoalescedConvert/CoalDocument.cs:18-40 | the text is the header line, then per section a header and per value a field line, in document order |
| Document.CoalDocument.OpenSection | CoalescedConvert/CoalDocument.cs:55-71 | the document and its cursor change as ApplySection says |
| Document.CoalDocument.AppendValue | CoalescedConvert/CoalDocument.cs:72-81 | the document and its cursor change as ApplyField says |
| Document.CoalDocument.Load | CoalescedConvert/CoalDocument.cs:42-86 | the loaded files are the result of folding the INI reads over the lines, or the first error |
| DocumentRoundTrip.SaveLoadRoundTrip | CoalescedConvert/CoalDocument.cs:18-86 | loading the text that Save writes gives the same files, for documents whose files are non-empty and named and whose neighbouring file names differ |
| Ini.IniEncode | CoalescedConvert/IniWriter.cs:62-96 | escaping at most doubles the length |
| Ini.EncodeOneLine | CoalescedConvert/IniWriter.cs:62-96 | an escaped value has no CR or LF, and no pipe or equals sign when those are escaped |
| Ini.DecodeEncode | CoalescedConvert/IniReader.cs:116-161 | unescaping an escaped value gives it back, with either flag |
| Ini.LoneEscapeKept | CoalescedConvert/IniReader.cs:116-161 | a backslash before a code it does not know is kept as it is |
| Ini.IniWriter.constructor | CoalescedConvert/IniWriter.cs:13-17 | a new writer has written only the first line, followed by the format name |
| Ini.IniWriter.WriteSection | CoalescedConvert/IniWriter.cs:30-43 | a blank line if fields were written since the last header, then the `[file|section]` line |
| Ini.IniWriter.WriteField | CoalescedConvert/IniWriter.cs:45-52 | one `name=value` line with the value escaped |
| Ini.IniWriter.WriteFields | CoalescedConvert/IniWriter.cs:54-60 | one field line per value, in order |
| Ini.TrimEnd | CoalescedConvert/IniReader.cs:61 | the result is a prefix that ends in a non-blank character, and a line ending in a non-blank character is kept whole |
| Ini.Classify | CoalescedConvert/IniReader.cs:60-106 | a line is skipped exactly when it is blank or a comment; otherwise it is a complete section or field result with its line number, or an error |
| Ini.ReadAtEnd | CoalescedConvert/IniReader.cs:109-113 | at the end of the lines the reader answers EndOfStream |
| Ini.ReadSkips | CoalescedConvert/IniReader.cs:51-114 | a read skips only blank and comment lines, and stops on the first other line |
| Ini.IniReader.constructor | CoalescedConvert/IniReader.cs:33-38 | a new reader stands at line 0 with the given options |
| Ini.IniReader.Read | CoalescedConvert/IniReader.cs:51-114 | the result and the next line number are those of the line reader, or its error |
| Ini.SectionLineReadsBack | CoalescedConvert/IniReader.cs:63-91 | a header line written for a named file reads back as that file and section |
| Ini.SectionLineNeedsFile | CoalescedConvert/IniReader.cs:69 | a header with an empty file name is IniNoCurrentFile at its line |
| Ini.FieldLineReadsBack | CoalescedConvert/IniReader.cs:93-106 | a field line with a plain key reads back as that key and value |
| HuffmanCompression.BitPacker.AddBit | CoalescedConvert/HuffmanCompressor.cs:66-81 | the packed bits grow by exactly that bit |
| HuffmanCompression.BitPacker.Finish | CoalescedConvert/HuffmanCompressor.cs:117 | the output bytes are the bits packed 8 to a byte, least significant bit first, with a partial last byte |
| HuffmanCompression.CountWeights | CoalescedConvert/HuffmanCompressor.cs:36-59 | the weights are the tally of every character of every string with its NUL terminator, with distinct keys |
| HuffmanCompression.HuffmanCompressor.constructor | CoalescedConvert/HuffmanCompressor.cs:13-16 | a new compressor has no strings, positions, nodes or data |
| HuffmanCompression.HuffmanCompressor.Add | CoalescedConvert/HuffmanCompressor.cs:18-21 | the string is recorded once, with position 0 until compression |
| HuffmanCompression.HuffmanCompressor.GetStringPosition | CoalescedConvert/HuffmanCompressor.cs:23-26 | an added string gives its bit position; any other string is an error |
| HuffmanCompression.HuffmanCompressor.Compress | CoalescedConvert/HuffmanCompressor.cs:28-122 | the nodes, codes, data and positions are those of the Huffman tree built from the weights, with each string's position the start of its bits |
| HuffmanCompression.BuildNodes | CoalescedConvert/HuffmanCompressor.cs:124-181 | the queue is the stable sort of the leaves by weight; the nodes are the flattened tree and the codes its paths |
| HuffmanCompression.PackStrings | CoalescedConvert/HuffmanCompressor.cs:82-117 | the data is the packed code bits of every string in order, and each position is where its string's bits start |
| HuffmanTree.TallyWeights | CoalescedConvert/HuffmanCompressor.cs:36-59 | each weight is the character's count less one, wrapped to 32 bits, as the source's counter starts at 0 |
| HuffmanTree.Combine | CoalescedConvert/HuffmanCompressor.cs:136-153 | repeatedly merging the two lightest nodes of the queue yields the tree built from it |
| HuffmanTree.BuiltFromLeaves | CoalescedConvert/HuffmanCompressor.cs:136-153 | the tree's leaves are exactly the queue's leaves, with one inner node fewer than leaves |
| HuffmanTree.Flatten | CoalescedConvert/HuffmanCompressor.cs:156-191 | the node array holds two slots per inner node |
| HuffmanTree.ChildSlotsFlatten | CoalescedConvert/HuffmanCompressor.cs:156-176 | each inner node's slots hold its children: an inner child by index, a leaf as -1 minus its character |
| HuffmanTree.CodesPath | CoalescedConvert/HuffmanCompressor.cs:193-211 | each character's code is the path from the root to its leaf |
| HuffmanTree.CodeBits | CoalescedConvert/HuffmanCompressor.cs:279-295 | emitting the chain code built for a path of at most 32 steps gives the path back |
| HuffmanDecompression.Root | CoalescedConvert/HuffmanDecompressor.cs:42 | the root is node number half the array length less one |
| HuffmanDecompression.Decode | CoalescedConvert/HuffmanDecompressor.cs:20-40 | the corrected decoder returns no NUL and at most one character per remaining bit |
| HuffmanDecompression.OnePairNeverStops | CoalescedConvert/HuffmanDecompressor.cs:55 | with one node pair the as-written walk never leaves the root |
| HuffmanDecompression.AsWrittenAgrees | CoalescedConvert/HuffmanDecompressor.cs:55 | when no slot points at node 0 and the root is not node 0, the as-written walk gives the corrected result |
| HuffmanDecompression.SlotZeroMisread | CoalescedConvert/HuffmanDecompressor.cs:55 | a concrete tree and bit string where the as-written walk yields U+FFFF and the corrected walk yields "ab" |
| HuffmanDecompression.HuffmanDecompressor.constructor | CoalescedConvert/HuffmanDecompressor.cs:15-18 | the decompressor keeps the node array |
| HuffmanDecompression.HuffmanDecompressor.Decompress | CoalescedConvert/HuffmanDecompressor.cs:20-40 | the loop computes the corrected decoder's result for the data from the offset |
| HuffmanRoundTrip.RoundTrip | CoalescedConvert/HuffmanCompressor.cs:28-122 | decompressing at a string's recorded position gives the string back, for NUL-free strings and trees at most 32 deep |
| HuffmanRoundTrip.AsWrittenHypothesis | CoalescedConvert/HuffmanDecompressor.cs:55 | the as-written decoder's hypothesis holds for a compressed tree exactly when the tree is a single leaf |
| ME12LE.Load | CoalescedConvert/ME12LEConverter.cs:11-61 | the files are the ME12LE layout read from the bytes, or its first error |
| ME12LE.LoadFile | CoalescedConvert/ME12LEConverter.cs:20-57 | one file's name and sections as the layout reads them, with a placeholder section for a file with no sections |
| ME12LE.Save | CoalescedConvert/ME12LEConverter.cs:63-89 | the bytes are the ME12LE layout of the document, each value as its own name/value pair |
| ME12LERoundTrip.SaveLoadRoundTrip | CoalescedConvert/ME12LEConverter.cs:11-89 | loading what Save writes gives the files back, a file with no sections gaining one empty section |
| ME12LERoundTrip.EmptyFileGainsSection | CoalescedConvert/ME12LEConverter.cs:55 | a file saved with no sections loads with a single empty-named section |
| ME2.LoadContent | CoalescedConvert/ME2Converter.cs:34-53 | a file's text is read as INI sections and fields, or its first error |
| ME2.Load | CoalescedConvert/ME2Converter.cs:12-61 | the files are the ME2 layout read from the bytes, or its first error |
| ME2.ContentWriter.WriteSection | CoalescedConvert/ME2Converter.cs:81 | one `[section]` line |
| ME2.ContentWriter.WriteField | CoalescedConvert/ME2Converter.cs:87 | one unescaped `name=value` line |
| ME2.WriteContentBytes | CoalescedConvert/ME2Converter.cs:73-96 | a file's content bytes are the low bytes of its text |
| ME2.Save | CoalescedConvert/ME2Converter.cs:63-106 | the bytes are the signature, then per file the name and the NUL-terminated content with its length |
| ME2RoundTrip.SaveLoadRoundTrip | CoalescedConvert/ME2Converter.cs:12-106 | loading what Save writes gives the files back, with the values of each field split one per field |
| ME2RoundTrip.ContentReadsBack | CoalescedConvert/ME2Converter.cs:34-96 | reading the content text written by lines 73-96 with the reader of lines 34-53 gives its sections back |
| ME2RoundTrip.EmptySectionNameRefused | CoalescedConvert/IniReader.cs:49-94 | a section with an empty name is written as `[]`, which is not a header to the reader and is refused with IniInvalidKeyName at line 1 |
| ME2RoundTrip.FieldBeforeSection | CoalescedConvert/ME2Converter.cs:48 | a field before any section is IniNoCurrentSection at its line |
| ME3.ME3Converter.ReadHeader | CoalescedConvert/ME3Converter.cs:70-84 | the signature and version are checked and the data length kept, as the header reader says |
| ME3.ME3Converter.ReadStringTable | CoalescedConvert/ME3Converter.cs:115-165 | the table's names, each checked against its CRC and lower-cased, and the position after the table |
| ME3.ME3Converter.ReadHuffmanNodes | CoalescedConvert/ME3Converter.cs:193-204 | the node count, then two ints per node |
| ME3.ME3Converter.ReadTree | CoalescedConvert/ME3Converter.cs:213-276 | the file, section and field index, each name looked up in the table |
| ME3.ME3Converter.ReadCompressedData | CoalescedConvert/ME3Converter.cs:350-379 | every value decompressed at its recorded position, with its tag checked |
| ME3.ME3Converter.Load | CoalescedConvert/ME3Converter.cs:19-33 | the files are the ME3 layout read from the bytes, or its first error |
| ME3.ME3Converter.WriteTree | CoalescedConvert/ME3Converter.cs:278-348 | all names are gathered, sorted by CRC and compressed; the index bytes are the tree layout; too many names is TooManyStrings |
| ME3.ME3Converter.WriteStringTable | CoalescedConvert/ME3Converter.cs:167-191 | the string table bytes, or ArgumentOutOfRange when the table length overflows an int |
| ME3.ME3Converter.Save | CoalescedConvert/ME3Converter.cs:35-68 | the bytes are the ME3 layout of the document with the sorted name table and the compressed values, or the first error |
| ME3Writing.WriteArchive | CoalescedConvert/ME3Converter.cs:35-68 | the archive is the header, table, nodes, index and data, in that order |
| ME3Writing.WriteHeader | CoalescedConvert/ME3Converter.cs:86-113 | the header holds the longest name and value lengths and the four section lengths |
| ME3Writing.WriteTable | CoalescedConvert/ME3Converter.cs:167-191 | the table is the length, the count, the CRC/offset index and the names |
| ME3Writing.WriteNodes | CoalescedConvert/ME3Converter.cs:206-211 | the node count, then every node slot as an int |
| ME3Writing.WriteData | CoalescedConvert/ME3Converter.cs:381-386 | the length of the compressed data, then the data |
| ME3Writing.LongestInFiles | CoalescedConvert/ME3Converter.cs:88-102 | the longest field name and the longest value over the whole document |
| ME3RoundTrip.HeaderRoundTrip | CoalescedConvert/ME3Converter.cs:70-113 | the written header reads back, and its bytes are detected as ME3 |
| ME3RoundTrip.NodesRoundTrip | CoalescedConvert/ME3Converter.cs:193-211 | the written node array reads back |
| ME3RoundTrip.StringTableRoundTrip | CoalescedConvert/ME3Converter.cs:115-191 | a written table of distinct lower-case names reads back as those names |
| ME3ArchiveRoundTrip.TreeRoundTrip | CoalescedConvert/ME3Converter.cs:213-348 | the written index reads back as the names and value positions of every file, section and field |
| ME3ArchiveLoad.LoadSaved | CoalescedConvert/ME3Converter.cs:19-68 | loading a saved archive gives the files back with every file, section and field name lower-cased |
| ME3ArchiveLoad.FileNamesKeep | CoalescedConvert/ME3Converter.cs:278-297 | the first walk of WriteTree, starting from a table of at most 65535 distinct names, leaves at most 65535 names with none twice |
| ME3ArchiveLoad.SavedTableFits | CoalescedConvert/ME3Converter.cs:35-68 | the sorted table Save builds, with the ids the string table keeps, holds only lower-cased one-byte names, none twice, and knows every file, section and field name, so it meets the table and tree hypotheses of LoadSaved when names are one-byte, counts fit a ushort and the table is under 2^31 bytes |
| ME3ArchiveLoad.SaveThenLoad | CoalescedConvert/ME3Converter.cs:35-68 | what Save writes for a document whose names fit loads back as the document with every name lower-cased |
| CoalescedCodec.LooseInt32At | CoalescedConvert/CoalescedConverter.cs:151-155 | with 4 bytes left it is the usual int; past the end the missing bytes OR in -1 and the result is negative |
| CoalescedCodec.LooseStringAt | CoalescedConvert/CoalescedConverter.cs:165-186 | a positive length prefix is an error; otherwise the UTF-16 string of that many units |
| CoalescedCodec.ReadPastEnd | CoalescedConvert/CoalescedConverter.cs:151-186 | a string read at the end of the data gives U+FFFF instead of failing |
| CoalescedCodec.ValueRoundTrip | CoalescedConvert/CoalescedConverter.cs:215-295 | unescaping the `\xHHHH`-escaped value gives it back |
| CoalescedCodec.EscapedPrintable | CoalescedConvert/CoalescedConverter.cs:215-243 | an escaped value holds only printable ASCII characters |
| CoalescedCodec.EventParses | CoalescedConvert/CoalescedConverter.cs:26-71 | each header or item line the decoder writes is parsed back as that header or item |
| CoalescedConversion.RoundTrip | CoalescedConvert/CoalescedConverter.cs:26-149 | decoding a written archive gives its text, and encoding that text gives the same bytes |
| CoalescedConversion.DecodeEmpty | CoalescedConvert/CoalescedConverter.cs:26-71 | an empty archive decodes to no lines |
| CoalescedConversion.FieldBeforeHeader | CoalescedConvert/CoalescedConverter.cs:120 | an item before any header is IniNoCurrentSection at line 1 |
| CoalescedConversion.HeaderWithoutFile | CoalescedConvert/CoalescedConverter.cs:99 | a header with an empty file name is IniNoCurrentFile at line 1 |
| CoalescedConversion.CoalescedConverter.ReadInt | CoalescedConvert/CoalescedConverter.cs:151-155 | the loose int and the position after it, even past the end of the data |
| CoalescedConversion.CoalescedConverter.ReadString | CoalescedConvert/CoalescedConverter.cs:165-186 | the loose string read or its error |
| CoalescedConversion.CoalescedConverter.WriteString | CoalescedConvert/CoalescedConverter.cs:188-205 | the negative unit count, the UTF-16 units and a NUL are appended |
| CoalescedConversion.CoalescedConverter.IniEncode | CoalescedConvert/CoalescedConverter.cs:215-243 | the loop computes the escaped value |
| CoalescedConversion.CoalescedConverter.IniDecode | CoalescedConvert/CoalescedConverter.cs:245-295 | the loop computes the unescaped value |
| CoalescedConversion.CoalescedConverter.Decode | CoalescedConvert/CoalescedConverter.cs:26-71 | the lines are the archive's text, `[name|]` for a file without sections, or the first error |
| CoalescedConversion.CoalescedConverter.Encode | CoalescedConvert/CoalescedConverter.cs:76-149 | the bytes are the archive of the parsed text, or the first parse error |
| CoalescedConversion.CoalescedConverter.ReadDoc | CoalescedConvert/CoalescedConverter.cs:76-127 | the document built by folding the parsed lines |
| CoalescedConversion.CoalescedConverter.WriteDoc | CoalescedConvert/CoalescedConverter.cs:128-148 | the written bytes are the archive layout of the document |
| CoalescedME12LEConversion.StreamRoundTrip | CoalescedConvert/CoalescedConverterME12LE.cs:18-138 | for both stream formats, loading what the writer produced gives the files back |
| CoalescedME12LEConversion.RoundTrip | CoalescedConvert/CoalescedConverterME12LE.cs:18-138 | decoding a written archive gives its text, and encoding that text gives the same bytes |
| CoalescedME12LEConversion.DecodeEmpty | CoalescedConvert/CoalescedConverterME12LE.cs:18-65 | an empty file is ArgumentOutOfRange for an unknown format and EndOfStream otherwise |
| CoalescedME12LEConversion.FieldBeforeHeader | CoalescedConvert/CoalescedConverterME12LE.cs:73-106 | a field before any header is IniNoCurrentSection at line 1 |
| CoalescedME12LEConversion.CoalescedConverterME12LE.constructor | CoalescedConvert/CoalescedConverterME12LE.cs:12-16 | the converter keeps its format and what-if flag |
| CoalescedME12LEConversion.CoalescedConverterME12LE.Decode | CoalescedConvert/CoalescedConverterME12LE.cs:18-65 | the decoded lines, or none at all when only a what-if run is asked for |
| CoalescedME12LEConversion.CoalescedConverterME12LE.Encode | CoalescedConvert/CoalescedConverterME12LE.cs:67-138 | the encoded bytes, or none at all on a what-if run |
| CoalescedME12LEConversion.ReadDoc | CoalescedConvert/CoalescedConverterME12LE.cs:73-106 | the document built by folding the reads over the lines |
| CoalescedME12LEConversion.WriteDoc | CoalescedConvert/CoalescedConverterME12LE.cs:108-127 | the archive layout of the document when every string fits, ArgumentTooLong otherwise |
| CoalescedME3LEConversion.NormalizedSpec | CoalescedConvert/CoalescedConverterME3LE.cs:177-191 | the written document is filled: a file with no sections gets one section with no name, and a field with no values gets one empty value; file names are kept; a document already filled (every file has a section and every field a value) is unchanged |
| CoalescedME3LEConversion.DecodeEncode | CoalescedConvert/CoalescedConverterME3LE.cs:20-247 | decoding succeeds, and encoding the decoded text gives the archive's document with the two substitutions of WriteIni (an empty section for a file with no sections, one empty value for a field with no values); this holds when that filled document is one Encode keeps apart: named files, no neighbouring files, sections or fields with the same name (Encode merges those, :218-240), and plain field names; a filled archive comes back unchanged |
| CoalescedME3LEConversion.EmptySectionOpened | CoalescedConvert/CoalescedConverterME3LE.cs:224-227 | a header for a new file always opens a section, even with an empty name |
| CoalescedME3LEConversion.FieldBeforeHeader | CoalescedConvert/CoalescedConverterME3LE.cs:231-232 | a field before any header is IniNoCurrentSection at line 1 |
| CoalescedME3LEConversion.ListInIndexOrder | CoalescedConvert/CoalescedConverterME3LE.cs:69-84 | the name list keeps the table's order, without lower-casing or removing duplicates |
| CoalescedME3LEConversion.CoalescedConverterME3LE.Decode | CoalescedConvert/CoalescedConverterME3LE.cs:20-33 | the text of the archive, or the first error |
| CoalescedME3LEConversion.CoalescedConverterME3LE.ReadHeader | CoalescedConvert/CoalescedConverterME3LE.cs:35-49 | the signature and version 1 are checked, and the data length kept |
| CoalescedME3LEConversion.CoalescedConverterME3LE.ReadStringTable | CoalescedConvert/CoalescedConverterME3LE.cs:51-85 | the names in table order, each checked against its CRC |
| CoalescedME3LEConversion.CoalescedConverterME3LE.ReadHuffmanNodes | CoalescedConvert/CoalescedConverterME3LE.cs:87-93 | the node count, then two ints per node |
| CoalescedME3LEConversion.CoalescedConverterME3LE.ReadTree | CoalescedConvert/CoalescedConverterME3LE.cs:95-144 | the index, with each id used directly as an index into the name list |
| CoalescedME3LEConversion.CoalescedConverterME3LE.ReadCompressedData | CoalescedConvert/CoalescedConverterME3LE.cs:146-168 | every value decompressed at its 28-bit position, with no tag check |
| CoalescedME3LEConversion.CoalescedConverterME3LE.WriteIni | CoalescedConvert/CoalescedConverterME3LE.cs:170-204 | the first line, then the text of the document with a lone header for a file with no sections and one empty value for a field with no values |
| CoalescedME3LEConversion.CoalescedConverterME3LE.Encode | CoalescedConvert/CoalescedConverterME3LE.cs:206-247 | the document built from the text, or the first error |

## Left out

- Primitives.ToLower: folds only A-Z. StringTable.cs:18 and :32 use the culture's ToLower, which also folds letters outside ASCII. So Strings.StringTable.Add, Strings.StringTable.GetId, the ME3 name table and ME3ArchiveLoad.LoadSaved agree with the source on ASCII names only.
- ME2.Load and ME2.LoadContent: the model parses a file's text characters directly. ME2Converter.cs:34 turns the text into bytes with Windows-1252 (:10), and IniReader.cs:35 reads those bytes back through a StreamReader, which decodes UTF-8 and honours a byte order mark. So in the source every character at or above 0x80 comes back changed: one in 0x80..0x9F with no Windows-1252 byte becomes '?' first, and a byte at or above 0x80 then decodes to U+FFFD or merges with its neighbours into another character. The model is exact on ASCII text only.
- ME2.Save: the content bytes are the low bytes of the text, which agree with Windows-1252 on ASCII text only. The writer constructor and the one-argument WriteSection called at ME2Converter.cs:74-81 are not declared in IniWriter.cs, so their behaviour is modelled from what the call sites pass: "\n" line ends, no blank lines and no escaping.
- CoalescedStream.ME3LERoundTrip: requires a string without surrogate code units. Utf8 encodes each code unit on its own, as 1 to 3 bytes. .NET's UTF-8 encodes surrogate pairs as 4 bytes, decodes 4-byte sequences to surrogate pairs, and replaces a truncated sequence with one U+FFFD. The model covers the Basic Multilingual Plane without surrogates exactly.
- ME3ArchiveLoad.LoadSaved: holds under four hypotheses. The names fit the 16-bit ids. Values are NUL-free, since a NUL ends a decompressed string. The compressed data is shorter than 2^25 bytes, so bit positions fit the 28-bit field. The Huffman tree is at most 32 deep, the width of a chain code.
- ME3ArchiveLoad.SaveThenLoad: holds for documents whose names are one-byte and shorter than 65,536 chars, whose counts fit a ushort and whose table is shorter than 2^31 bytes. Save checks only that the table length does not wrap negative, and WriteTree writes counts as ushorts without a check.
- ME12LE.Save: requires the file, section and value counts to fit an int, since the source writes them with WriteInt and sums them with LINQ's checked Sum.
- HuffmanDecompression.HuffmanDecompressor.Decompress: ME3Converter.cs:358 and :368 call a constructor and a GetString method that HuffmanDecompressor.cs does not declare. The model uses Decompress(data, offset), as CoalescedConverterME3LE.cs:162 does.
- HuffmanDecompression.HuffmanDecompressor.Decompress: the model computes the corrected decoder (see Findings); the as-written walk is HuffmanDecompression.DecodeAsWritten.
- Buffers.BinaryBuffer.SetCapacity: grows from capacity 0, where the source loops for ever (see Findings); the as-written loop is Buffers.DoublingAsWritten.
- Buffers.BinaryBuffer.SetCapacity: 32-bit overflow is not modelled, since capacities are unbounded integers. In the source `capacity *= 2` (BinaryBuffer.cs:41) wraps for a target above 2^30, the capacity goes negative and then to 0, and the loop never ends.
- Buffers.BinaryBuffer.WriteBuffer, Buffers.BinaryBuffer.WriteInt, Buffers.BinaryBuffer.WriteUInt, Buffers.BinaryBuffer.WriteShort, Buffers.BinaryBuffer.WriteUShort, Buffers.BinaryBuffer.WriteByte, Buffers.BinaryBuffer.WriteBytes: the requested capacity `_len + n` (BinaryBuffer.cs:56, :65, :74, :83, :90, :97 and :103) is not wrapped to 32 bits, so a buffer near 2^31 bytes grows in the model where the source overflows.
- CoalescedConversion.CoalescedConverter.Decode: the source writes each INI line as it goes (CoalescedConverter.cs:26-70), so an exception leaves a partial file behind; the model returns only the error and no lines.
- Ini.IniWriter.constructor: the detector's first line, `CoalescedFormatDetector.IniFirstLine` (IniWriter.cs:16), is the parameter marker, because its declaration is not part of this model.
- CoalescedME3LEConversion.CoalescedConverterME3LE.WriteIni: the one-argument `IniWriter(ms)` called at CoalescedConverterME3LE.cs:173 is not declared in IniWriter.cs; the model takes it to write the ME3LE first line.
- CoalescedME3LEConversion.CoalescedConverterME3LE.Encode: the one-argument `IniReader(fs)` called at CoalescedConverterME3LE.cs:211 is not declared in IniReader.cs; the model takes it to read embedded file names and unescape values.
- CoalescedME12LEConversion.ReadDoc: the one-argument `IniReader(fs)` called at CoalescedConverterME12LE.cs:74 is modelled in the same way, with embedded file names and unescaping.
- Ini.IniDecode: `IniWriter.EscapeChar`, which IniReader.cs:125-150 compares against and appends, is not declared in IniWriter.cs; the model takes it to be the backslash, the escape character IniEncode writes (IniWriter.cs:72-74).
- Null arguments are not modelled, since Dafny values cannot be null: the ArgumentNullException paths of CoalescedFileStream.cs:18, IniReader.cs:35, IniWriter.cs:15, HuffmanDecompressor.cs:17, the CoalFileStream constructors and the CoalFile and CoalSection constructors (CoalDocument.cs:96 and :107) are left out.
- Strings.StringTable.Sort: the order among names with equal CRCs is left open, since List.Sort is not stable.
- File and stream I/O are not modelled: opening, closing, Dispose, Flush and Seek. Streams are byte sequences with a position, and text is a sequence of lines.
- Stream positions after a failed read are not modelled. The model returns the error, and the converters stop at the first error as the exceptions do.
- Document objects are values, so aliasing between the lists of a document is not modelled.
- The CC_UTF8 build option of CoalFileStream.cs, BinaryBuffer.cs and HuffmanCompressor.cs is not modelled. The default branch, which writes the low byte of each character, is modelled.
- The ME2 signature written at ME2Converter.cs:67 is a parameter of ME2.Save, because CoalFormatDetector is not part of this model.
- Document.CoalDocument.Load: the format, which the IniReader overload called at CoalDocument.cs:44 takes from the header line, is a parameter; that overload is not declared in IniReader.cs.
- Document.CoalDocument.Save: the header line is a parameter; the IniWriter overload called at CoalDocument.cs:20, with a CoalFormat and leaveOpen, is not declared in IniWriter.cs.
- The leaveOpen flags of the stream constructors have no effect on the model.
- IniReader's regular expressions are modelled by hand: the line matchers, the `\s` class as the .NET white-space set, and the culture-independent parts only.
- Log, Program.cs and the converters' verbose reports are not modelled.

## Findings

| source | as written | input that shows it | evidently intended | confidence | as-written member | corrected member |
|---|---|---|---|---|---|---|
| CoalescedConvert/HuffmanDecompressor.cs:55 | `CharValue` treats a node id of 0 as a leaf (`_nid > 0` is the inner-node test), so a slot pointing at inner node 0 reads as the character U+FFFF, and a one-pair tree never leaves its root | nodes [-98, -99, -1, 0] with data [13] at offset 0: the as-written walk gives U+FFFF, while the tree encodes "ab" | inner nodes are ids >= 0 and leaves ids < 0, so the test is `_nid >= 0` | high (proved, not executed) | HuffmanDecompression.DecodeAsWritten, HuffmanDecompression.SlotZeroMisread, HuffmanDecompression.OnePairNeverStops | HuffmanDecompression.HuffmanDecompressor.Decompress, HuffmanDecompression.Decode, HuffmanRoundTrip.RoundTrip |
| CoalescedConvert/BinaryBuffer.cs:41 | the capacity grows by doubling from the current capacity, so from capacity 0 (`new BinaryBuffer(0)`) the loop never ends | a buffer made with capacity 0, then any write | start the doubling from at least 1, so the capacity reaches the target | high (proved, not executed) | Buffers.DoublingAsWritten, Buffers.CapacityZeroNeverGrows | Buffers.BinaryBuffer.SetCapacity, Buffers.Grown, Buffers.GrownAgrees |
