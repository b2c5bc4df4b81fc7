# Archive table readers and writers, and the PAK1 stream cipher

This project models the core of an archive extraction toolkit in Dafny. It
covers four archive formats:

- **Touhou PAK1** (`th/pak1`):
  - a LE u16 file count;
  - a table of 0x6C-byte entries, encrypted with a rolling-XOR stream cipher;
  - the payloads, three kinds of which are encrypted with the same cipher under
    keys chosen by the file name.
- **BGI ARC** (`bgi/arc`):
  - the 12-byte magic `PackFile` followed by four spaces;
  - a LE u32 file count;
  - a table of 32-byte entries whose offsets count from the end of the table.
- **NScripter NSA**:
  - a BE u16 count and a BE u32 offset to the files;
  - a table of zero-terminated names, each followed by 13 bytes of big-endian fields.

  Both the unpacker and the packer are modelled, and packing then unpacking is
  proved to give every file back.
- **Nitroplus PAK2**:
  - the magic `02 00 00 00`;
  - three u32 header fields;
  - a zlib-compressed table at offset 276 with length-prefixed names;
  - payloads that are stored or zlib-compressed depending on a flags field.

The modules:

- `Base`: bytes, the errors the readers raise, integer fields, and the files an
  unpacker hands to its saver. `Unpacked` holds the files saved in order and the
  error that stopped the unpacking, if any.
- `Cursors`: the byte cursor every reader works through. `SeekTo`, `ReadAt`,
  `ToZeroAt`, `UntilZeroAt` and the other read functions state what each read
  does to the pair (bytes, position). The class `Cursor` has `Seek`, `Read`,
  `ReadU32Le`, `ReadToZero`, `ReadUntilZero` and the other read methods, each
  proved against its function. `Writer` is the packer's output file, which
  `seek` can move back into.
- `Tables`: the table loop every format shares. It reads a count of entries one
  after another, checks each as soon as it is read, and aborts the whole table
  on the first failure. The lemmas relate it to a table laid out by offsets.
- `Cipher`: PAK1's `decrypt`, an in-place method on an array. It is proved
  against a function `Transform`, whose keystream is stated both as a recurrence
  and in closed form.
- `Pak1`, `BgiArc`, `Nsa`, `NsaPacker`, `Pak2`: one module per format. Each
  has:
  - functions that state what each step of the source reads, such as
    `TableAt`, `FileAt` and `UnpackAt`;
  - lemmas that restate those functions by offsets into the archive, with
    their failure cases;
  - imperative methods that follow the source's loops over a `Cursor`, each
    proved equal to its function.

Imported algorithms are function-typed parameters:

- zlib inflation (`inflate`) returns `None` where `Zlib.inflate` raises;
- the LZSS coder is `encode` and `decode`.

## Model

| member | source | states |
|---|---|---|
| Cipher.Decrypt | src/fmt/touhou/pak1_archive_decoder.cc:23-31 | decrypting a buffer in place leaves exactly `Transform` of the old contents |
| Cipher.TransformAt | src/fmt/touhou/pak1_archive_decoder.cc:23-31 | the transform keeps the length, and byte i becomes byte i XOR key i; key i depends only on (a, b, delta) and i, never on the data |
| Cipher.KeyClosedForm | src/fmt/touhou/pak1_archive_decoder.cc:27-29 | key i is a + i*b + (0+1+…+(i-1))*delta mod 256, derived from the recurrence k(i+1) = k(i) + b(i) |
| Cipher.MulIsProduct | src/fmt/touhou/pak1_archive_decoder.cc:27-29 | the repeated addition the closed forms use is the product x*y |
| Cipher.TriangleClosed | src/fmt/touhou/pak1_archive_decoder.cc:29 | the number of deltas added to the step by byte n, 0+1+…+(n-1), is n(n-1)/2 |
| Cipher.StepClosedForm | src/fmt/touhou/pak1_archive_decoder.cc:29 | the step at byte i is b + i*delta mod 256 |
| Cipher.TransformInvolution | src/fmt/touhou/pak1_archive_decoder.cc:23-31 | decrypting twice with the same parameters gives the buffer back |
| Cipher.XorTwice | src/fmt/touhou/pak1_archive_decoder.cc:27 | XORing a byte twice with the same key restores it |
| Cipher.TableKeyVector | src/fmt/touhou/pak1_archive_decoder.cc:70 | the table key (0x64, 0x64, 0x4D) turns four zero bytes into 64 C8 79 77 |
| Pak1.ReadRawTable | src/fmt/touhou/pak1_archive_decoder.cc:61-72 | the table is count * 0x6C bytes; it is refused with RecognitionError when those bytes are not there, and decrypted with (0x64, 0x64, 0x4D) otherwise |
| Pak1.TableAtSized | src/fmt/touhou/pak1_archive_decoder.cc:74-79 | a zero count is refused unless the archive is 6 bytes long; a table that does not fit is refused; otherwise the entries come from the decrypted table |
| Pak1.TableShape | src/fmt/touhou/pak1_archive_decoder.cc:74-93 | read_table accepts exactly when the count is non-zero (or the archive is 6 bytes), the table fits and every entry passes the u32 bound check. Entry k is then the one at k * 0x6C: a name (up to the first zero of 0x64 bytes), a LE u32 size and a LE u32 offset. Otherwise it fails with BadDataOffsetError |
| Pak1.DecryptedEntries | src/fmt/touhou/pak1_archive_decoder.cc:82-91 | a decrypted table of n slots reads as its n slots, in order, exactly when all pass the bound check; otherwise it fails with BadDataOffsetError |
| Pak1.EntryAtFixedPlace | src/fmt/touhou/pak1_archive_decoder.cc:85-87 | each entry read consumes exactly 0x6C bytes, from k * 0x6C to (k + 1) * 0x6C |
| Pak1.EntriesAllFit | src/fmt/touhou/pak1_archive_decoder.cc:82-92 | a table whose every slot passes the bound check is read as exactly those slots |
| Pak1.EntriesMisfit | src/fmt/touhou/pak1_archive_decoder.cc:88-89 | one slot failing the bound check aborts the whole table with BadDataOffsetError |
| Pak1.FitsWraps | src/fmt/touhou/pak1_archive_decoder.cc:88 | the bound check adds in u32: an entry at offset 0xFFFFFFFF of size 1 passes against a 6-byte archive |
| Pak1.ReadEntry | src/fmt/touhou/pak1_archive_decoder.cc:84-87 | one entry read from the table cursor is the `EntryAt` value, and the cursor ends after it |
| Pak1.ReadEntries | src/fmt/touhou/pak1_archive_decoder.cc:82-91 | the loop of read_table gives what `Entries` reads, with the bound check on each entry |
| Pak1.ReadTable | src/fmt/touhou/pak1_archive_decoder.cc:74-93 | read_table on a cursor gives `TableAt` of the archive and leaves the cursor after the table |
| Pak1.FileShape | src/fmt/touhou/pak1_archive_decoder.cc:33-59 | read_file succeeds exactly when offset + size lies inside the archive. The file keeps the entry's name and size. The first pattern the name contains ("musicroom.dat", then ".sce", then "cardlist.dat") selects a key; with a key, the extension becomes .txt and encrypting the data again gives the stored bytes, and without one the data are the stored bytes |
| Pak1.ReadFile | src/fmt/touhou/pak1_archive_decoder.cc:33-59 | read_file on a cursor, decrypting in place, gives `FileAt` |
| Pak1.IsRecognized | src/fmt/touhou/pak1_archive_decoder.cc:111-122 | recognition is true exactly when read_table raises nothing |
| Pak1.UnpackShape | src/fmt/touhou/pak1_archive_decoder.cc:124-129 | nothing is saved unless the whole table is read; then the files of the entries are saved in table order, up to the first that fails |
| Pak1.Unpack | src/fmt/touhou/pak1_archive_decoder.cc:124-129 | unpack_internal on a cursor gives `UnpackAt` |
| BgiArc.RecognizedMeansMagic | src/fmt/bgi/arc_archive_decoder.cc:68-71 | the unguarded read raises Truncated exactly when fewer than 12 bytes remain; otherwise recognition holds exactly when those 12 bytes are "PackFile" and four spaces |
| BgiArc.IsRecognized | src/fmt/bgi/arc_archive_decoder.cc:68-71 | is_recognized_internal on a cursor gives `Recognized`: the magic comparison, or the error of the short read |
| BgiArc.EntryAtPlace | src/fmt/bgi/arc_archive_decoder.cc:31-36 | an entry is read exactly when its 32 bytes are there: a 16-byte name up to its first zero, a LE u32 offset plus the data start mod 2^32, a LE u32 size, and 8 skipped bytes |
| BgiArc.TableRoom | src/fmt/bgi/arc_archive_decoder.cc:29-37 | a table of n entries is read exactly when n is 0 or its n * 32 bytes fit |
| BgiArc.TableLaidOut | src/fmt/bgi/arc_archive_decoder.cc:29-37 | in a table that fits, entry k lies at start + 32k and is followed by entry k+1, and no entry is checked |
| BgiArc.TableShape | src/fmt/bgi/arc_archive_decoder.cc:24-38 | read_table accepts exactly when count * 32 bytes follow the count, with no check against the archive size. Entry k is slot k, with its offset moved by the data start, which is computed once from the count before any entry is read. The table ends after the last slot |
| BgiArc.DataStartIsTableEnd | src/fmt/bgi/arc_archive_decoder.cc:28 | below 2^32 bytes of table, the data start is the end of the table |
| BgiArc.DataStartWraps | src/fmt/bgi/arc_archive_decoder.cc:28 | the u32 product wraps: 2^27 entries put the data start at the table start |
| BgiArc.ReadEntry | src/fmt/bgi/arc_archive_decoder.cc:31-36 | one entry read from the cursor is the `EntryAt` value, and the cursor ends after it |
| BgiArc.EntriesCutShort | src/fmt/bgi/arc_archive_decoder.cc:29-37 | the first entry that cannot be read aborts the table with its error |
| BgiArc.EntriesRead | src/fmt/bgi/arc_archive_decoder.cc:29-37 | a table of n slots that fit is read as those slots, ending after the last |
| BgiArc.ReadEntries | src/fmt/bgi/arc_archive_decoder.cc:29-37 | the loop of read_table gives what `Entries` reads |
| BgiArc.ReadTable | src/fmt/bgi/arc_archive_decoder.cc:24-39 | read_table on a cursor gives `TableAt` |
| BgiArc.FileShape | src/fmt/bgi/arc_archive_decoder.cc:41-48 | read_file succeeds exactly when offset + size lies inside the archive, and gives the size bytes at the offset under the entry's name, with the extension left to sniffing |
| BgiArc.ReadFile | src/fmt/bgi/arc_archive_decoder.cc:41-48 | read_file on a cursor gives `FileAt` |
| BgiArc.UnpackShape | src/fmt/bgi/arc_archive_decoder.cc:73-83 | an archive shorter than the magic fails the skip. Otherwise nothing is saved unless the table is read, and then the files of its entries are saved in table order, up to the first that fails |
| BgiArc.Unpack | src/fmt/bgi/arc_archive_decoder.cc:73-83 | unpack_internal on a cursor gives `UnpackAt` |
| Nsa.HeaderShape | lib/nscripter/nsa_archive.rb:21-24 | the header is a BE u16 count and a BE u32 offset to the files; an offset past the end of the archive fails with 'Bad offset to files', otherwise the entries start after the 6 bytes |
| Nsa.ReadHeader | lib/nscripter/nsa_archive.rb:22-24 | reading the header from a cursor gives `HeaderAt` |
| Nsa.TableInArchive | lib/nscripter/nsa_archive.rb:26-43 | every table read holds `num_files` entries, each with its data ending inside the archive |
| Nsa.EntryOutsideFails | lib/nscripter/nsa_archive.rb:39-41 | an entry whose data end past the archive fails the whole table with 'Bad offset to file' |
| Nsa.ReadEntry | lib/nscripter/nsa_archive.rb:30-36 | one entry is a name up to a zero (consumed), then 13 bytes: u8 type, then BE u32 origin (rebased by the offset to the files), compressed size and original size |
| Nsa.ReadCheckedEntry | lib/nscripter/nsa_archive.rb:28-41 | one pass of the loop: the table read from the old position is this entry followed by the rest, or this entry's error |
| Nsa.ReadEntries | lib/nscripter/nsa_archive.rb:26-43 | the loop of read_table gives what `Entries` reads, with the origin check on each entry |
| Nsa.ReadTable | lib/nscripter/nsa_archive.rb:21-44 | read_table on a cursor gives `TableAt` |
| Nsa.FileShape | lib/nscripter/nsa_archive.rb:46-73 | a file unpacked has exactly its entry's original size, and its type is never SPB. An SPB entry inside the archive fails. A stored entry gives its bytes at its origin when the two sizes agree, and 'Bad file size' otherwise |
| Nsa.ReadFile | lib/nscripter/nsa_archive.rb:48-58 | reading one file from a cursor gives `FileAt` |
| Nsa.UnpackShape | lib/nscripter/nsa_archive.rb:14-17 | nothing is saved unless the whole table is read; then the files of its entries are saved in table order, up to the first that fails |
| Nsa.Unpack | lib/nscripter/nsa_archive.rb:14-60 | unpack on a cursor at the start of the archive gives `UnpackAt` |
| NsaPacker.SlashesReplaced | lib/nscripter/nsa_archive.rb:104 | every '/' of a name becomes '\\', every other byte stays, and no '/' is left |
| NsaPacker.SlashesNoZero | lib/nscripter/nsa_archive.rb:104 | replacing slashes adds no zero byte to a name |
| NsaPacker.CompressRoundTrip | lib/nscripter/nsa_archive.rb:117-128 | compress fails exactly for SPB, and then decompress fails too; otherwise decompress undoes compress (LZSS when the decoder undoes the encoder, any other type as the identity) |
| NsaPacker.FieldBytes | lib/nscripter/nsa_archive.rb:107-111 | pack('CL>L>L>') gives 13 bytes |
| NsaPacker.EntryBytes | lib/nscripter/nsa_archive.rb:103-111 | an entry as written takes its name's length plus 14 bytes: name, zero, 13 bytes of fields |
| NsaPacker.FieldsRoundTrip | lib/nscripter/nsa_archive.rb:107-111 | fields packed without truncation unpack to the same type and sizes, with the origin rebased |
| NsaPacker.EntryReadBack | lib/nscripter/nsa_archive.rb:103-111 | an entry written at a position reads back with slashes turned into backslashes and its origin rebased, and ends after its bytes |
| NsaPacker.RowsAt | lib/nscripter/nsa_archive.rb:93-97 | the entry recorded for file j has its name, the type, the running origin and its two sizes |
| NsaPacker.TableBytesSize | lib/nscripter/nsa_archive.rb:78-81 | the table written takes exactly table_size = sum of (name length + 14), the room reserved for it |
| NsaPacker.PayloadSize | lib/nscripter/nsa_archive.rb:84-100 | the data written take the sum of the compressed sizes |
| NsaPacker.PayloadSlice | lib/nscripter/nsa_archive.rb:84-100 | file j's compressed data lie at its origin, the sum of the compressed sizes before it |
| NsaPacker.TableAtSlot | lib/nscripter/nsa_archive.rb:102-112 | entry j is written at 6 plus the room of the names before it |
| NsaPacker.FillRoom | lib/nscripter/nsa_archive.rb:102 | writing the table over the zeros after seek(6) leaves header, table, data |
| NsaPacker.EntryInPacked | lib/nscripter/nsa_archive.rb:102-112 | entry j's bytes lie at its slot of the packed archive |
| NsaPacker.EntryAtSlot | lib/nscripter/nsa_archive.rb:103-111 | entry j at its slot reads back as the stored entry and ends at the slot of entry j+1 |
| NsaPacker.PackedEntry | lib/nscripter/nsa_archive.rb:103-111 | the unpacker's entry reader, at slot j of a packed archive, gives entry j and the next slot |
| NsaPacker.PackedLaidOut | lib/nscripter/nsa_archive.rb:102-112 | the table of a packed archive is laid out slot after slot |
| NsaPacker.HeaderReadBack | lib/nscripter/nsa_archive.rb:80 | a header of a count and an offset inside the archive reads back as them, with the entries after it |
| NsaPacker.PackedHeader | lib/nscripter/nsa_archive.rb:78-80 | the header of a packed archive reads back as the file count and 6 + table_size |
| NsaPacker.PackedInArchive | lib/nscripter/nsa_archive.rb:84-99 | every entry of a packed archive passes the unpacker's origin check |
| NsaPacker.FileReadBack | lib/nscripter/nsa_archive.rb:86-91 | a file whose compressed data lie at its entry's origin unpacks to its data |
| NsaPacker.PackedFile | lib/nscripter/nsa_archive.rb:84-99 | entry j of a packed archive unpacks to file j's data under its converted name |
| NsaPacker.PackedTable | lib/nscripter/nsa_archive.rb:77-113 | read_table on a packed archive gives one entry per file, in order: converted name, type, origin and sizes |
| NsaPacker.PackRoundTrip | lib/nscripter/nsa_archive.rb:77-113 | pack succeeds, and unpacking its output saves every file, in order, with its data and its name with slashes turned into backslashes |
| NsaPacker.WriteHead | lib/nscripter/nsa_archive.rb:78-81 | pack begins by writing the header (count, 6 + table_size) and table_size zeros |
| NsaPacker.WritePayloads | lib/nscripter/nsa_archive.rb:83-100 | the loop appends each file's compressed data and records its entry with the running origin; an SPB request fails at the first file and writes nothing |
| NsaPacker.PayloadStep | lib/nscripter/nsa_archive.rb:87-99 | one file extends the data written, the running origin and the recorded entries by one |
| NsaPacker.WriteEntry | lib/nscripter/nsa_archive.rb:104-111 | the three writes of one entry write its bytes at the position |
| NsaPacker.EntryWrites | lib/nscripter/nsa_archive.rb:104-111 | writing the name, a zero and the fields one after another is one write of the entry |
| NsaPacker.WriteTable | lib/nscripter/nsa_archive.rb:102-112 | after seek(6) the loop writes the recorded entries over the archive, starting at 6 |
| NsaPacker.TableStep | lib/nscripter/nsa_archive.rb:103-112 | one entry written after those before it extends the table written so far |
| NsaPacker.Pack | lib/nscripter/nsa_archive.rb:77-113 | pack writes exactly the archive `Packed` describes (header, table, data), or, for SPB with files, fails leaving the header and zeros |
| Pak2.MagicChecked | lib/nitroplus/pak2_archive.rb:13-18 | unpacking fails with 'Not a PAK archive' exactly when the first 4 bytes are not 02 00 00 00, and then saves nothing |
| Pak2.TableShape | lib/nitroplus/pak2_archive.rb:22-31 | the table is accepted exactly when its compressed bytes at 276 are there, inflate, and inflate to table_size bytes. The files then start right after the compressed bytes. The error cases are stated one by one |
| Pak2.TableSizeChecked | lib/nitroplus/pak2_archive.rb:31 | unpacking fails with 'Bad file table size' exactly when the table inflates to a length other than table_size, and then saves nothing |
| Pak2.EntryShape | lib/nitroplus/pak2_archive.rb:38-62 | an entry is read exactly when its u32 name length, its name and its 20 bytes are there: origin, original size, 4 skipped bytes, flags, compressed size |
| Pak2.DataShape | lib/nitroplus/pak2_archive.rb:46-51 | the data lie at origin + offset to the files: with a flag set, the inflated compressed-size bytes; otherwise the original-size bytes |
| Pak2.FileError | lib/nitroplus/pak2_archive.rb:38-54 | read_file fails only on a short table or archive, a seek past the end, or zlib |
| Pak2.FilesFromShape | lib/nitroplus/pak2_archive.rb:33-35 | the loop saves at most file_count files, exactly file_count when nothing fails |
| Pak2.CountSaved | lib/nitroplus/pak2_archive.rb:13-36 | an unpacking that does not fail saves exactly file_count files |
| Pak2.FileStep | lib/nitroplus/pak2_archive.rb:38-54 | read_file is the next entry of the table followed by the read of its data |
| Pak2.FilesFromTable | lib/nitroplus/pak2_archive.rb:33-54 | reading each entry just before its data is the same as reading the whole table first and then the files in table order |
| Pak2.FilesFromInterleaved | lib/nitroplus/pak2_archive.rb:33-54 | the file loop is the shared loop that reads each entry, with no check, just before its data |
| Pak2.UnpackPrefix | lib/nitroplus/pak2_archive.rb:13-36 | however the unpacking ends, saved file k is the read of entry k of the table, whose first k+1 entries can be read even when a later one cannot |
| Pak2.UnpackStop | lib/nitroplus/pak2_archive.rb:33-54 | an unpacking whose table was read but which failed stopped at the entry right after the last saved file: reading that entry from the table, or its data, gave the error reported |
| Pak2.UnpackInOrder | lib/nitroplus/pak2_archive.rb:13-36 | when the table is read, the files saved are those of its file_count entries, in table order, up to the first whose data fail |
| Pak2.ReadHeader | lib/nitroplus/pak2_archive.rb:23-25 | read(12).unpack('LLL') on a cursor gives `HeaderAt` |
| Pak2.ReadFileTable | lib/nitroplus/pak2_archive.rb:22-31 | the table read on a cursor gives `TableAt`, and the cursor stands at the offset to the files |
| Pak2.ReadFileName | lib/nitroplus/pak2_archive.rb:56-62 | read_file_name on the table cursor gives `NameAt` |
| Pak2.ReadEntry | lib/nitroplus/pak2_archive.rb:39-44 | an entry read from the table cursor is the `EntryAt` value |
| Pak2.ReadData | lib/nitroplus/pak2_archive.rb:46-51 | the seek and read of read_file give `DataAt` |
| Pak2.ReadFile | lib/nitroplus/pak2_archive.rb:38-54 | read_file on the two cursors gives `FileAt`, and the table cursor ends after the entry |
| Pak2.Unpack | lib/nitroplus/pak2_archive.rb:13-36 | unpack on a cursor at the start of the archive gives `UnpackAt` |
| Tables.EntriesPass | lib/nscripter/nsa_archive.rb:26-43 | a table read holds exactly the requested number of entries after those before, and each passed its check |
| Tables.ReadLaidOut | src/fmt/touhou/pak1_archive_decoder.cc:82-92 | a table whose entries can all be read is accepted exactly when every entry passes its check, and then holds them in on-disk order |
| Tables.ReadLaidOutError | src/fmt/touhou/pak1_archive_decoder.cc:88-89 | a refused table fails with the error of the first entry that does not pass |
| Tables.InterleavedKeeps | lib/nitroplus/pak2_archive.rb:33-35 | a loop that saves each file as soon as it is read never drops a file saved earlier |
| Tables.InterleavedSaved | lib/nitroplus/pak2_archive.rb:33-54 | in a loop that reads each entry just before its file, saved file k is the file of entry k of the table, and the entries up to it can be read and pass |
| Tables.InterleavedStops | lib/nitroplus/pak2_archive.rb:33-54 | such a loop that fails stops at the entry after the last saved file, with the error of reading or checking that entry or of reading its file |
| Tables.ReadUnreadable | src/fmt/bgi/arc_archive_decoder.cc:29-37 | the first entry that cannot be read aborts the table with its read error |
| Base.TakeToZero | src/fmt/touhou/pak1_archive_decoder.cc:85 | the name read from a fixed-width field is its prefix before the first zero |
| Base.ContainsIsSubstring | src/fmt/touhou/pak1_archive_decoder.cc:41 | the name test holds exactly when the pattern occurs somewhere in the name |
| Base.Be32RoundTrip | lib/nscripter/nsa_archive.rb:107-111 | pack('L>') then unpack('L>') gives back any value below 2^32 |
| Base.ExtractInOrder | src/fmt/touhou/pak1_archive_decoder.cc:126-128 | extracting a table hands over the files of its entries in table order, up to the first that fails, with that entry's error |
| Cursors.ZeroFromFirst | lib/nscripter/nsa_archive.rb:30 | the zero that ends a name is the first one at or after the position |
| Cursors.UntilZeroName | lib/nscripter/nsa_archive.rb:30 | a name with no zero, followed by a zero, reads back as itself |
| Cursors.Cursor.ReadToZero | src/fmt/touhou/pak1_archive_decoder.cc:85 | read_to_zero(n) consumes exactly n bytes and gives those before the first zero |
| Cursors.Cursor.ReadUntilZero | lib/nscripter/nsa_archive.rb:30 | read_until_zero gives the bytes up to the next zero and consumes the zero; with no zero left it fails and does not move |
| Cursors.Cursor.Read | src/fmt/touhou/pak1_archive_decoder.cc:39 | a read of n bytes gives the next n bytes and moves past them, or fails and does not move |
| Cursors.Cursor.Seek | src/fmt/touhou/pak1_archive_decoder.cc:38 | a seek inside the archive moves there; past the end it fails |
| Cursors.Writer.Write | lib/nscripter/nsa_archive.rb:91 | a write overwrites the bytes under it and extends the file past its end |

## Left out

- LZSS (`LzssEncoder`): its source is not part of this model. The NSA unpacker and packer take the decoder and the encoder as parameters. The round trip assumes the decoder undoes the encoder for LZSS.
- Zlib (RFC 1950 and RFC 1951): a foreign library. PAK2 takes `inflate` as a parameter, which returns None where `Zlib.inflate` raises.
- Shift-JIS to UTF-8 name conversion in PAK2's `read_file_name`: it needs a character-encoding library. Names stay the bytes read, as in the `rescue` branch. A `rescue` reached through a short read, which leaves the name nil, is a failed read here.
- `File::guess_extension` (BGI) and `change_extension` (PAK1): their code is not part of this model. A file records `Guessed` or `ChangedTo(".txt")`.
- `FileSaver`, `output_files`, the format registry and the sub-decoders (CBG, DSC, audio, PAK1 image and audio): I/O plumbing or code that is not part of this model. Unpacking returns the files handed to the saver, in order, with the error that stopped it. Files saved before a failure are not taken back.
- Short reads: `io::IO` and Ruby's `BinaryIO` are not part of this model. Every fixed-size read fails when fewer bytes remain. A seek past the end of the archive fails, where a Ruby file would allow it and fail on the next read. A read from a missing zero fails in `read_until_zero`.
- PAK2's `unpack('L')` reads native-endian u32s. They are modelled as little-endian.
- NSA lengths: Ruby measures `n.length` (lib/nscripter/nsa_archive.rb:78), `data_original.length` and `data_compressed.length` (lib/nscripter/nsa_archive.rb:88-89) in characters, and the model counts bytes. They agree for single-byte names and for binary-encoded data strings.
- NsaPacker.PackRoundTrip: it holds for `Packable` inputs only. Those inputs have a type below 256 that is not SPB, fewer than 2^16 files, and names without zero bytes. Their sizes and offsets fit in 32 bits. Outside these, `pack('S>L>')` and `pack('C')` truncate silently (`FieldBytes` and `HeaderBytes` model that). A zero byte inside a name also cuts the name short on reading.
- `options[:compression] || NO_COMPRESSION`: the caller passes the type to `NsaPacker.Pack`.
- PAK1's second guard (`table_size > file_count * (0x64 + 4 + 4)`): 0x6C equals 0x64 + 4 + 4, so it never fires and is not modelled.
- Nsa.Unpack and Pak2.Unpack require the cursor at position 0, as a freshly opened archive is.
- Pak2.ReadFile requires the table cursor and the archive cursor to be different objects, as they are in the source.
- In `Cipher`, `Mul` is repeated addition, so that the closed-form proofs stay linear.
