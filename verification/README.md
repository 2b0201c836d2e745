# Sylverant: a verified model

Sylverant is a family of servers and tools for Phantasy Star Online. This project models the parts of
it in which data has to survive a format or a protocol, and proves that it does, or exactly when it
does.

- **Packets on encrypted streams** (`PacketStream`, `ShipReader`, `LoginReader`, `ReadersAgree`,
  `Ciphers`): two readers with different state machines, any way of cutting the stream, and the three
  ciphers that they run on.
- **PRS compression** (`PrsStream`, `PrsFormat`, `PrsLayout`, `PrsDecoder`, `PrsSearch`, `PrsEncoder`,
  `PrsCompressor`, `PrsWindowEdge`): an interleaved bit and byte stream, the decompressor's state
  machine, the hash chains and the lazy match selection of the compressor, when it copies and what,
  sizes and the round trip.
- **Archives** (`Image`, `Records`, `AfsFormat`, `AfsTool`, `GslFormat`, `GslTool`, `BmlFormat`,
  `BmlTool`): byte images, the lists of files that they hold, and the commands that change them.
- **The patch protocol** (`PatchPaths`, `PatchList`, `PatchConfig`, `PatchServer`, `PatchTransfer`,
  `PatchReplay`): the configuration's grammar, the list of files, the transfer, and a client that
  replays what was sent.
- **ISO 9660 files** (`IsoFiles`, `IsoDirs`, `IsoTree`): reads at any position, directories, paths, and
  trees laid out in bytes.
- **Items and experience** (`Items`, `ItemRuns`, `Experience`): conservation and path independence.
- **Checksum and boot image** (`Crc`, `RunLengths`), and **the DNS responder** (`Dns`).

Code that works step by step is a method over a class, an array or a sequence, proved against a
function; the functions' own laws are lemmas. `dafny verify dfyconfig.toml` checks everything.

Where the code and its comments or its purpose part, the model follows the code, and the exact
condition is proved:

- A PRS copy of ten or more bytes from distance exactly 8192 is written as the two zero bytes that
  mean the end of the data; the rest of the file is lost (`PrsEncoder.RoundTrip`).
- Adding to an empty AFS archive writes the data over the table (`AfsFormat.AddNeedsFiles`).
- The GSL header length is rounded to 4096, not to the 2048 of its comment, and only sometimes leaves
  the zero byte that ends the table (`GslTool.CreateNeedsRoom`).
- The BML writer pads aligned data by 32 bytes more, the scan does not
  (`BmlFormat.TableNeedsSound`).
- A patch file whose length is a multiple of the chunk size, zero included, is never finished
  (`PatchTransfer.EndsIffSendable`).
- The entry of a patch for all other clients has the checksum 0 as its own condition
  (`PatchServer.AnswerMeans`).
- A disc read whose end wraps around in 32 bits is not cut at the end of the file
  (`IsoFiles.ReadIsRight`).
- The picture encoder does not count the first pixel (`RunLengths.Encode`).
- DNS queries that do not ask for an internet address are reported and answered all the same
  (`Dns.AnswersExactly`); a query for the root makes the code write in front of its buffer
  (`Dns.UnderrunsExactly`).
- The byte order of a GSL archive is guessed right only below 16 MiB (`GslFormat.GuessIsExact`).
- Splitting an award of experience matters once a total wraps around (`Experience.AwardsAddUp`).

## Model

| member | source | states |
|---|---|---|
| PacketStream.CryptAppend | ship_server/src/clients.c:437-493 | decryption composes: decrypting two word-multiple pieces one after the other, with the key state carried over, is decrypting them as one |
| PacketStream.RoundedFits | ship_server/src/clients.c:466-470 | rounding the declared length in 16 bits leaves a usable length, a header at least, exactly from 1 up to 65536 minus the header size; for 0 and above that it is zero |
| PacketStream.RunAppend | ship_server/src/clients.c:415-527 | an ideal reader that is interrupted anywhere and gets the rest later delivers the same packets, the same return value and the same rest |
| PacketStream.RunSettles | ship_server/src/clients.c:478-527 | between calls less than a header, or less than a body, is left over |
| PacketStream.DecryptsInOrder | ship_server/src/clients.c:437-493 | the delivered packets, joined, are the decryption of the consumed bytes as one piece: every byte once and in order, the header ahead of its body |
| ShipReader.ShipClient.ProcessPkt | ship_server/src/clients.c:401-530 | for any piece that recv returns: the packets delivered, the return value, the key state and the leftover are those of the ideal reader on the old leftover followed by the piece |
| ShipReader.ShipClient.Capacity | ship_server/src/clients.c:415-432 | the receive buffer always has room for more than a header |
| LoginReader.LoginClient.ReadFromClient | login_server/src/login.c:173-358 | the same for the reader that takes one packet at a time and resumes short headers and bodies |
| ReadersAgree.ShipSession | ship_server/src/clients.c:401-530 | a whole stream, however recv cuts it, gives the packets of reading it at once |
| ReadersAgree.LoginSession | login_server/src/login.c:173-358 | a whole stream whose headers declare a header at least, however recv cuts it, gives the packets of reading it at once |
| ReadersAgree.SameDelivery | login_server/src/login.c:173-358 | the two servers deliver the same packets of the same stream under independent cuts |
| ReadersAgree.EncryptInverts | ship_server/src/clients.c:437-493 | decrypting an encryption of whole words gives the words back, with the key states in step |
| ReadersAgree.ReadsOnePacket | ship_server/src/clients.c:444-527 | the encrypted bytes of a well-formed packet are read as exactly that packet, whatever follows |
| ReadersAgree.SentIsDelivered | ship_server/src/clients.c:401-530 | what a sender encrypts packet by packet is what the reader delivers, with nothing left over |
| ReadersAgree.SentUntilRefused | ship_server/src/clients.c:508-527 | a packet that its handler refuses is delivered like the ones before it, and ends the reading with the handler's code, whatever follows |
| Ciphers.PairInverse | libsylverant/src/encryption/psobb-crypt.c:155-226 | the four rounds of the Blue Burst cipher are undone by the decryption, for any round function and any keys |
| Ciphers.BbInverse | libsylverant/src/encryption/psobb-crypt.c:155-226 | decrypting eight encrypted bytes gives them back, for any key tables |
| Ciphers.MaskTwice | libsylverant/src/encryption/psopc-crypt.c:81-89 | a key word put on a data word twice leaves the data word |
| Ciphers.MaskBytes | libsylverant/src/encryption/psopc-crypt.c:81-89 | each byte of a data word meets its byte of the key word, the lowest first |
| Ciphers.PcMixes | libsylverant/src/encryption/psopc-crypt.c:13-42 | every entry of a mixed table, from the old entry 31 above it or the new one 24 below it |
| Ciphers.PcKeysInOrder | libsylverant/src/encryption/psopc-crypt.c:68-79 | the keys come from the table in order, and then from the mixed table |
| Ciphers.GcMixes | libsylverant/src/encryption/psogc-crypt.c:20-48 | the same for the GameCube table, from the old last 32 entries and then the new ones 32 below |
| Ciphers.GcKeysInOrder | libsylverant/src/encryption/psogc-crypt.c:50-55 | the keys come from the table in order, and then from the mixed table |
| Ciphers.StreamFits | libsylverant/src/encryption/psogc-crypt.c:100-112 | a cipher that adds a key stream is its own inverse on a connection, for any source of keys |
| Ciphers.StreamSession | libsylverant/src/encryption/psopc-crypt.c:81-89 | a session under any key stream delivers exactly the packets that were sent, for any key state |
| Ciphers.DeclaredIs | ship_server/src/packets.h:50-66 | the length is read where each of the three headers has it, for every length below 65536 |
| Ciphers.PcSession | ship_server/src/clients.c:444-527 | packets with the headers of the Dreamcast and PC versions, padded to words of four, are delivered as they were formed, under the mixed key table |
| Ciphers.GcSession | ship_server/src/clients.c:444-527 | the same for the GameCube versions, with their header and key table |
| Ciphers.BbSession | libsylverant/src/encryption/psobb-crypt.c:155-226 | packets with the Blue Burst header, padded to words of eight, are delivered as they were formed, for any key tables |
| PrsStream.PackedReads | libsylverant/src/utils/prs-comp.c:106-151 | a reader fetches from a packed stream exactly the bits and bytes that were written, although flag bits and data bytes share it |
| PrsStream.PackedSize | libsylverant/src/utils/prs-comp.c:106-151 | the stream takes one byte for every eight bits of weight, rounded up |
| PrsFormat.DecodesTokens | libsylverant/src/utils/prs-decomp.c:52-125 | decoding the encoding of any tokens expands those before the first one that looks like the end mark |
| PrsFormat.DecompressLimit | libsylverant/src/utils/prs-decomp.c:468-486 | a buffer of the caller serves exactly when it is as long as the decompressed data; otherwise the result is an error |
| PrsLayout.LiteralBytes | libsylverant/src/utils/prs-comp.c:106-174 | the bytes of a literal and the end mark: the flag bits start at the lowest |
| PrsLayout.ShortCopyBytes | libsylverant/src/utils/prs-comp.c:416-441 | the bytes of a literal and any near copy of two to five bytes |
| PrsLayout.LongCopyBytes | libsylverant/src/utils/prs-comp.c:442-462 | the bytes of a literal and any copy of up to nine bytes |
| PrsLayout.ExtCopyBytes | libsylverant/src/utils/prs-comp.c:463-488 | the bytes of a literal and any copy with a length byte of its own |
| PrsDecoder.Decoder.DoDecompress | libsylverant/src/utils/prs-decomp.c:52-125 | the state machine on its growing or fixed buffer computes the decoding of the stream, or its error code |
| PrsDecoder.DecompressBuf | libsylverant/src/utils/prs-decomp.c:432-466 | the growing-buffer entry point returns the decompressed data, or the error |
| PrsDecoder.DecompressBuf2 | libsylverant/src/utils/prs-decomp.c:468-486 | the fixed-buffer entry point returns the decompressed data within the buffer, or the error |
| PrsDecoder.DecompressSize | libsylverant/src/utils/prs-decomp.c:488-505 | the size-only pass returns the length that decompression would have, or the error |
| PrsSearch.BestIsLongest | libsylverant/src/utils/prs-comp.c:189-260 | the match found is real, within 8192 bytes, and no match of two or more bytes in the window is longer |
| PrsSearch.BestCounts | libsylverant/src/utils/prs-comp.c:189-260 | the match found is the longest in the window and the nearest of those, or the farthest from 256 bytes on; none is found when there is none of two bytes |
| PrsSearch.BestIgnoresPast | libsylverant/src/utils/prs-comp.c:189-260 | the byte behind the input, which the hash of the last pair reads, changes no match but the last, which is never longer than one byte |
| PrsSearch.Chains.FindLongestMatch | libsylverant/src/utils/prs-comp.c:189-260 | the hash chains, cut where they leave the window, always lead to that match |
| PrsSearch.Chains.MatchLength | libsylverant/src/utils/prs-comp.c:176-187 | the comparison loop returns how many bytes agree |
| PrsEncoder.PastIsIgnored | libsylverant/src/utils/prs-comp.c:400-440 | whatever byte lies behind the input, the same tokens are chosen |
| PrsEncoder.TokensExpand | libsylverant/src/utils/prs-comp.c:335-530 | the chosen literals and copies, lazy evaluation included, expand to the input |
| PrsEncoder.ChooseRuled | libsylverant/src/utils/prs-comp.c:388-505 | a byte is copied if and only if three bytes match in the window, or two within 256, and the next position has no better match; the copy is that of the match that counts, in the shortest form that holds it |
| PrsEncoder.LongerIsThere | libsylverant/src/utils/prs-comp.c:393-408 | up to 255 bytes the next position has a longer match that counts exactly when it has a longer match |
| PrsEncoder.CopyIsLongest | libsylverant/src/utils/prs-comp.c:416-505 | a copy takes the longest match there is, up to 256 bytes |
| PrsEncoder.TokensRuled | libsylverant/src/utils/prs-comp.c:335-530 | every token of an input follows that rule, behind two literals; inputs up to three bytes are literals |
| PrsEncoder.RoundTrip | libsylverant/src/utils/prs-comp.c:335-530 | decompressing a compressed input gives it back if and only if no copy of ten or more bytes from distance exactly 8192 was emitted; otherwise a proper prefix comes out |
| PrsEncoder.CompressedSize | libsylverant/src/utils/prs-comp.c:101-104 | compressed data is never larger than the promised maximum, which storing as literals takes exactly |
| PrsEncoder.ArchiveRoundTrip | libsylverant/src/utils/prs-comp.c:285-326 | data stored as literals always comes back |
| PrsCompressor.Writer.WriteEof | libsylverant/src/utils/prs-comp.c:153-174 | the end mark and the last flag byte complete the stream |
| PrsCompressor.CompressFrom | libsylverant/src/utils/prs-comp.c:388-516 | the token loop with its hash tables and its buffer writes exactly the encoding of the chosen tokens, or reports that it does not fit |
| PrsCompressor.PrsArchive | libsylverant/src/utils/prs-comp.c:285-326 | the archive routine fills its buffer with the encoding of the literals |
| PrsCompressor.PrsCompress | libsylverant/src/utils/prs-comp.c:335-530 | the compressor returns the compressed form of the input, whatever byte lies behind it, or the error for an empty input |
| PrsWindowEdge.WindowEdgeLoses | libsylverant/src/utils/prs-comp.c:189-260 | a concrete input of 8202 bytes does not survive: its last ten bytes repeat at distance 8192 |
| PrsWindowEdge.NoRepeatSurvives | libsylverant/src/utils/prs-comp.c:335-530 | every input without ten bytes repeating at that distance survives, and so does every input shorter than 8202 bytes |
| Image.OverwriteTwice | pso_tools/pso_artool/afs.c:71-102 | two writes one behind the other are one write |
| Image.CopyFile | pso_tools/pso_artool/afs.c:71-102 | copying in pieces of 512 bytes is one write of the whole range, and fails exactly when the source is too short, with the code of the piece |
| Image.PadFile | pso_tools/pso_artool/afs.c:104-125 | padding ends at the next multiple of 2048, a whole block on when already there, by writing its last byte |
| AfsFormat.ScanFinds | pso_tools/pso_artool/afs.c:161-222 | a scan finds a list exactly when the header counts it and every table entry leads to its file |
| AfsFormat.TableBelowData | pso_tools/pso_artool/afs.c:516-601 | the table ends at or below the data at 0x80000 exactly for up to 65535 entries |
| AfsFormat.RegionsDisjoint | pso_tools/pso_artool/afs.c:224-309 | the data regions of the files do not overlap |
| AfsFormat.LaidPutAll | pso_tools/pso_artool/afs.c:224-309 | writing more files keeps every table entry and all data of the files before |
| AfsFormat.CreatedScans | pso_tools/pso_artool/afs.c:516-601 | scanning a created archive gives the list |
| AfsFormat.RewrittenScans | pso_tools/pso_artool/afs.c:716-953 | scanning a rewritten archive gives the list it was written from |
| AfsFormat.AddedScans | pso_tools/pso_artool/afs.c:603-714 | adding to an archive that is not empty gives the old files followed by the new ones |
| AfsFormat.AddNeedsFiles | pso_tools/pso_artool/afs.c:638-661 | adding any n files works, for all their contents, if and only if the archive was not empty |
| AfsTool.AddFiles | pso_tools/pso_artool/afs.c:224-309 | the loop writes table entries, data and padding of all input files, and fails exactly when one cannot be opened |
| AfsTool.ScanAfs | pso_tools/pso_artool/afs.c:161-222 | the scan with each of the copying callbacks returns the count or the code of the first failure, and leaves the files it copied; data of a skipped file is not read |
| AfsTool.Create | pso_tools/pso_artool/afs.c:516-601 | the return code for every input, and the archive that scans as the list |
| AfsTool.Add | pso_tools/pso_artool/afs.c:603-714 | the return code for every input, the late check of the count included, and the archive of old and new files |
| AfsTool.Update | pso_tools/pso_artool/afs.c:716-824 | the return code for every input, and the archive: the files that the callback has written, whether or not the source scans, and the list with one file replaced if it does |
| AfsTool.Delete | pso_tools/pso_artool/afs.c:826-953 | the return code for every input, and the archive: the files that the callback has written, and the list without the listed files if the source scans |
| AfsTool.EditedOne | pso_tools/pso_artool/afs.c:459-514 | the update callback over a scan does to the list what replacing one index does |
| AfsTool.EditedKept | pso_tools/pso_artool/afs.c:407-457 | the delete callback over a scan filters the listed indices out |
| AfsTool.KeptAt | pso_tools/pso_artool/afs.c:414-418 | after a delete every file that stays is at the place that the remaining indices before it give, and there are no others |
| GslFormat.ScanFinds | pso_tools/pso_artool/gsl.c:140-271 | a scan finds a list exactly when the table leads to each file and ends there |
| GslFormat.LaidPutAll | pso_tools/pso_artool/gsl.c:273-425 | writing more files keeps the entries and data before and leaves the rest of the table space zero |
| GslFormat.WrittenScans | pso_tools/pso_artool/gsl.c:273-425 | where the table is followed by a free byte, scanning gives the same names and contents |
| GslFormat.TableNeedsRoom | pso_tools/pso_artool/gsl.c:700-745 | all lists of n files come back from an archive with its data at h if and only if n is positive and the table ends below h |
| GslFormat.HeaderHasRoom | pso_tools/pso_artool/gsl.c:702-705 | the computed header length exceeds the table exactly when 48 n modulo 4096 is at least 2048 |
| GslFormat.GuessIsRight | pso_tools/pso_artool/gsl.c:197-217 | below 16 MiB the guessed byte order is right for both orders, for a nonzero first sector in range, in spite of the 32-bit product |
| GslFormat.GuessIsExact | pso_tools/pso_artool/gsl.c:197-217 | for an archive of any length: the guess is right for every nonzero first sector in range, in both byte orders, if and only if the length is below 16 MiB |
| GslFormat.GuessingScans | pso_tools/pso_artool/gsl.c:140-271 | a scan that guesses finds what was written in either order below 16 MiB |
| GslTool.EditMaps | pso_tools/pso_artool/gsl.c:461-685 | on an archive that scans, each callback does to the image what the command does to the list |
| GslTool.UpdatedList | pso_tools/pso_artool/gsl.c:605-685 | an update replaces the files with the name, by a file under its own name, and nothing else |
| GslTool.DeletedAt | pso_tools/pso_artool/gsl.c:535-539 | a delete leaves exactly the files with none of the names, each at the place that the remaining files before it give |
| GslTool.Tool.Settle | pso_tools/pso_artool/gsl.c:197-223 | the byte order is taken from the first sector number if it is not known, and the code is that of a corrupt archive if neither order fits |
| GslTool.Tool.ScanGsl | pso_tools/pso_artool/gsl.c:140-271 | the scan with each callback returns the count or the code of the first failure, fixes the byte order, and leaves the files it copied |
| GslTool.Tool.Create | pso_tools/pso_artool/gsl.c:687-757 | the return code, the byte order afterwards, and the archive; it scans as the list when the header has room |
| GslTool.Tool.Add | pso_tools/pso_artool/gsl.c:759-836 | the return code for every archive, with its own for those that can be counted but not copied, and the archive of old and new files, which scans as such when the header has room |
| GslTool.CopiesScan | pso_tools/pso_artool/gsl.c:461-526 | copying all files succeeds exactly on the archives that scan |
| GslTool.Tool.Update | pso_tools/pso_artool/gsl.c:838-910 | the return code and the archive for every source: the files that the callback has written; on one that scans they are the list with the named files replaced |
| GslTool.Tool.Delete | pso_tools/pso_artool/gsl.c:912-1003 | the same for a delete, whose header length comes from the old count |
| GslTool.CreateNeedsRoom | pso_tools/pso_artool/gsl.c:702-745 | create followed by scan is right for all lists of n files if and only if 48 n modulo 4096 is at least 2048 |
| GslTool.DeleteNeedsRoom | pso_tools/pso_artool/gsl.c:912-1003 | after a delete the remaining n files come back, for all lists, if and only if n is positive and their table ends below the old header length |
| BmlFormat.ScanDrifts | pso_tools/bmltool/bmltool.c:180-227 | the position that a scan derives lies behind the writer by 32 bytes for every part whose length is a multiple of 32 |
| BmlFormat.WrittenScans | pso_tools/bmltool/bmltool.c:163-232 | when no part with any bytes follows a part whose length is a multiple of 32, scanning gives every file and second part back |
| BmlFormat.TableNeedsSound | pso_tools/bmltool/bmltool.c:104-125 | with a given table, all contents come back if and only if the lengths are of that kind |
| BmlTool.EditMaps | pso_tools/bmltool/bmltool.c:477-625 | on an archive that scans, the update does to the image what replacing one part of the named files does to the list |
| BmlTool.ScanBml | pso_tools/bmltool/bmltool.c:163-232 | the scan with the copying callback writes the updated archive, or fails exactly when a part it needs is missing |
| BmlTool.NewEntryIs | pso_tools/bmltool/bmltool.c:498-510 | the entry of an updated file has both sizes of the new part, and every other byte as it was |
| BmlTool.UpdatedAt | pso_tools/bmltool/bmltool.c:477-575 | in the updated list the named files have one new part with its two sizes, and everything else stays |
| BmlTool.UpdateBml | pso_tools/bmltool/bmltool.c:627-722 | the return code for every input, and the archive of what the callback has written; it scans as the updated list when the lengths are sound |
| BmlTool.NewPartDecompresses | pso_tools/bmltool/bmltool.c:323-475 | the replaced part, decompressed with the size that its own entry says, gives the new file, exactly when the compressor has not met the edge of its window |
| PatchPaths.StrTok | patch_server/src/patch_server.c:191-223 | the tokenizer gives the components of a path, one at a time |
| PatchPaths.TokensCat | patch_server/src/patch_server.c:191-223 | the components of two paths with a slash between them are those of the one followed by those of the other |
| PatchPaths.NameSplits | patch_server/src/patch_server.c:251-264 | the base name holds no slash and stands behind the last one, and the directory before it |
| PatchPaths.PathTokens | patch_server/src/patch_server.c:251-264 | the components of a path are those of its directory and its base name |
| PatchPaths.RouteLeads | patch_server/src/patch_server.c:181-232 | the commands lead from the one directory to the other below any base and never pop the base |
| PatchPaths.RouteIsShortest | patch_server/src/patch_server.c:199-224 | no other sequence of up and down commands gets there with fewer than the two depths less twice the common prefix |
| PatchPaths.Wire.ChangeDirectory | patch_server/src/patch_server.c:181-232 | sends exactly that route, or fails exactly when a component on the way down is too long, with the commands before it sent |
| PatchList.ListReplays | patch_server/src/patch_server.c:235-298 | a client that replays the list is asked about all files in order, by their numbers; its directory and the name it is asked about are then the components of the path, the name without a slash; it never leaves its base and ends there |
| PatchList.SendFileList | patch_server/src/patch_server.c:235-298 | sends exactly that list, or fails exactly when a name does not fit its packet, with the code of the name and everything before it sent |
| PatchConfig.EntryAccepted | patch_server/src/patch_config.c:295-382 | an entry is accepted exactly when it has one file, one checksum and one size, all readable |
| PatchConfig.EntryHolds | patch_server/src/patch_config.c:311-370 | an accepted entry has the file, checksum and size of its elements and the condition that it was given |
| PatchConfig.HandleEntry | patch_server/src/patch_config.c:295-382 | the error code or the entry, for every element |
| PatchConfig.PatchAccepted | patch_server/src/patch_config.c:429-602 | the accepted patches are exactly those of the grammar, and are one unconditional entry or conditions with at most one last entry for all others |
| PatchConfig.PatchHolds | patch_server/src/patch_config.c:429-602 | an accepted patch has the client file of its element, and the one entry of its elements or the entries of its branches in order |
| PatchConfig.HandlePatch | patch_server/src/patch_config.c:384-612 | the error code, or the patch appended to the queue, for every element |
| PatchServer.FetchPatch | patch_server/src/patch_server.c:301-310 | walking the queue gives the patch with the index, if there is one |
| PatchServer.StoreFile | patch_server/src/patch_server.c:313-378 | an answer queues the first entry that passes the test, or nothing if none does |
| PatchServer.FirstWantedIsFirst | patch_server/src/patch_server.c:348-374 | that entry passes the test and none before it does |
| PatchServer.AnswerMeans | patch_server/src/patch_server.c:337-374 | for every accepted patch and every answer, the entry that is queued is the one that the configuration means, if and only if it is not so that the client reports the checksum 0, its file does not differ from the entry for all others, and no condition asks for 0 |
| PatchServer.InvKept | patch_server/src/patch_server.c:381-515 | every list-done packet, and every file queued meanwhile, keeps: a started transfer has a file in the queue, and the position is the chunk number times 24576 |
| PatchServer.TotalAdds | patch_server/src/patch_server.c:397-408 | the announced size adds up over the queue |
| PatchServer.DataPacketIs | patch_server/src/patch_packets.c:298-335 | a data packet carries the bytes at its position, as many as fit, with zeros up to a multiple of four, and their checksum |
| PatchServer.PatchClient.SendFileChunk | patch_server/src/patch_packets.c:278-342 | the chunk that is sent, with its padding to four bytes, and the result: the end is found only by a short read |
| PatchServer.PatchClient.HandleListDone | patch_server/src/patch_server.c:381-515 | every branch of the state machine; the code that ends the list is reached only in phase 2 |
| PatchTransfer.FullChunks | patch_server/src/patch_packets.c:278-342 | k list-done packets send the first k full chunks, in order |
| PatchTransfer.TransferRuns | patch_server/src/patch_server.c:381-515 | a queue of sendable files takes exactly 2 plus, for each file, 1 plus its number of chunks packets, and sends the count, the sum of sizes, and all files in order |
| PatchTransfer.StopsAt | patch_server/src/patch_server.c:475-488 | the first file that cannot be sent ends the run with an error right after its full chunks |
| PatchTransfer.EndsIffSendable | patch_server/src/patch_server.c:381-515 | with names that fit, a transfer reaches its end if and only if every file exists and has a length that is no multiple of 24576 |
| PatchTransfer.ChunksRoundUp | patch_server/src/patch_packets.c:298-309 | the number of chunks is the length divided by 24576, rounded up |
| PatchReplay.QueueArrives | patch_server/src/patch_server.c:381-515 | a client that replays a whole transfer has every file of the queue, in order: the bytes on disk, the announced size, under the last component of its path in the directory of the others; with chunks in order and checksums right; and is back in its base |
| IsoFiles.StoredIsWanted | pso_patcher/patcher/cdfs.c:253-311 | a read whose end does not wrap stores exactly the bytes of the file from the position on, through whole sectors, split reads and single sectors |
| IsoFiles.ReadIsRight | pso_patcher/patcher/cdfs.c:261-268 | a read is right if and only if it starts behind the end, or its end does not wrap in 32 bits, or the rest of the file lies in the sector it starts inside |
| IsoFiles.Cdfs.Pread | pso_patcher/patcher/cdfs.c:253-311 | the recursive read terminates and returns the stored bytes, or the error of an unreadable sector or a bad handle |
| IsoFiles.Cdfs.Read | pso_patcher/patcher/cdfs.c:313-326 | the same at the handle's position, which moves on by the bytes read |
| IsoFiles.Cdfs.LoadBinary | pso_patcher/patcher/patcher.c:304-311 | the loop of 2048-byte reads loads the whole file |
| IsoDirs.FnCompare | pso_patcher/patcher/cdfs.c:80-89 | accepts a record name exactly when it is the wanted one or continues it with a semicolon; of a name that leaves the buffer it reads on exactly when the part before agrees |
| IsoDirs.FirstIsFirst | pso_patcher/patcher/cdfs.c:149-182 | the record that is found is the first of the right kind with a matching name, or there is none |
| IsoDirs.SearchFinds | pso_patcher/patcher/cdfs.c:149-182 | where the records lie in their sectors, searching a directory sector by sector finds the first such record among the records of all of them |
| IsoDirs.LowFind | pso_patcher/patcher/cdfs.c:149-182 | for every disc, the loop over records and sectors is that search, with its error codes, or the read behind the buffer |
| IsoDirs.FollowPath | pso_patcher/patcher/cdfs.c:214-233 | for every disc and path, the components are followed one at a time, the last with the wanted kind |
| IsoDirs.ComponentsCat | pso_patcher/patcher/cdfs.c:214-221 | the components of two paths with a slash between them are those of the one followed by those of the other; a path without slashes is its only component |
| IsoDirs.ComponentsClean | pso_patcher/patcher/cdfs.c:214-221 | no component is empty or holds a slash |
| IsoDirs.Open | pso_patcher/patcher/cdfs.c:195-240 | for every disc and path: the first free handle is set to the extent where the path leads, or the error code, or the read behind the buffer |
| IsoDirs.FindRoot | pso_patcher/patcher/cdfs.c:118-147 | the root extent of the volume descriptor, or the error code |
| IsoTree.RecordReads | pso_patcher/patcher/cdfs.c:164-173 | a directory record laid out as section 9.1 of ECMA-119 says reads as its name, kind, extent and length |
| IsoTree.SectorReads | pso_patcher/patcher/cdfs.c:167-175 | a sector of whole records with a zero behind them if there is room reads as those records |
| IsoTree.DirectoryReads | pso_patcher/patcher/cdfs.c:149-182 | a directory laid out over its sectors as section 6.8.1 of ECMA-119 says reads as its records |
| IsoTree.RootReads | pso_patcher/patcher/cdfs.c:118-147 | the root directory is found where the record in the volume descriptor says |
| IsoTree.EnterFinds | pso_patcher/patcher/cdfs.c:149-182 | on the bytes of a tree, the search for one component finds the directory itself, the one above, or the first child with the name, and nothing else |
| IsoTree.ResolveIsLookup | pso_patcher/patcher/cdfs.c:195-240 | on a disc whose bytes hold a tree, every path leads to the extent that looking it up in the tree gives, or to no file if it names none |
| Items.ItemAddToInv | ship_server/src/items.c:698-728 | the return code and the whole inventory after adding in place |
| Items.ItemRemoveFromInv | ship_server/src/items.c:663-696 | the return code and the whole inventory after removing in place |
| Items.Bank.ItemDepositToBank | ship_server/src/items.c:746-774 | the return code and the whole bank after a deposit |
| Items.Bank.ItemTakeFromBank | ship_server/src/items.c:776-823 | the return code, the whole bank and the item handed out |
| Items.AddedIs | ship_server/src/items.c:698-728 | an add succeeds exactly when there is room and the id is new; a stack goes on the first stack of its code, modulo 256, anything else behind the others |
| Items.RemovedIs | ship_server/src/items.c:663-696 | a remove succeeds exactly when the item is there; the slot goes exactly when the item does not stack, or all or at least its quantity is removed, and otherwise keeps a positive rest |
| Items.DepositedIs | ship_server/src/items.c:746-774 | a deposit succeeds exactly when there is room, and merges like an add |
| Items.TakenIs | ship_server/src/items.c:776-823 | a take succeeds exactly when the item is there and no more than its quantity is asked of a stack; the slot goes exactly when the item does not stack or its whole quantity is taken |
| ItemRuns.RunKeeps | ship_server/src/items.c:663-823 | over any run sizes stay within 30 and 200, inventory ids stay distinct, and a stackable code keeps at most one stack in each |
| ItemRuns.RunLeavesNoneEmpty | ship_server/src/items.c:663-823 | no remove or take ever leaves a stack of quantity 0: over any run there is none unless one came in or a merge wrapped around to it |
| ItemRuns.RunCounts | ship_server/src/items.c:663-823 | over any run the holdings of every code are what went in less what came out, both stated from the operations and the lists alone, less 256 for each merge that did not fit a byte |
| ItemRuns.TakeMoves | ship_server/src/items.c:776-823 | a take hands out exactly what the bank loses: the requested quantity of a stack, with its amount, or a whole item |
| Experience.Player.ClientGiveExp | ship_server/src/clients.c:696-740 | the return code, the level, the experience, the six stats and the packets after an award, by the loop over levels, for every failure of a packet |
| Experience.SplitAward | ship_server/src/clients.c:711-713 | two awards give the level and stats of one award of their sum, with every level table, if and only if the second addition does not overflow 32 bits |
| Experience.SplitTotals | ship_server/src/clients.c:704-713 | the totals agree exactly when the first award did not reach the last level or the second is nothing |
| Experience.AwardsAddUp | ship_server/src/clients.c:696-740 | any number of awards give the level and stats of one award of the whole, with every level table, if and only if no total on the way exceeds the last one |
| Experience.AwardsClimb | ship_server/src/clients.c:696-740 | awards in a row reach the level and stats that their largest total reaches |
| Experience.GivenIsGreatest | ship_server/src/clients.c:721-730 | with a nondecreasing table the level after an award is the greatest, at most 199, whose threshold is met, if and only if the new total meets that of the old level |
| Experience.GivenGains | ship_server/src/clients.c:673-693 | each of the six stats grows by the sum of what all levels reached add to it, in 16 bits |
| Experience.SixStats | ship_server/src/clients.c:673-693 | every stat is added to its own counterpart |
| Crc.ComputeCrc32 | pso_patcher/patcher/patcher.c:66-83 | the loop computes the checksum function |
| Crc.CrcIsRfc | pso_patcher/patcher/patcher.c:66-83 | the branch-free checksum is the table-driven one of section 8 of RFC 1952 |
| Crc.EightIsLookup | pso_patcher/patcher/patcher.c:70-80 | eight bit steps are one table lookup and a shift |
| Crc.CrcAffine | pso_patcher/patcher/patcher.c:66-83 | the checksum of the sum of three messages of one length is the sum of their checksums |
| Crc.RegisterInjective | pso_patcher/patcher/patcher.c:70-80 | the same bytes never bring two different registers together |
| Crc.CrcNotices | pso_patcher/patcher/patcher.c:66-83 | changing any one to four bytes in a row of any message always changes its checksum |
| RunLengths.Encode | pso_patcher/img-enc/img-enc.c:68-92 | decoding the encoder's runs, none longer than 65535 and none starting anew without need, gives the picture without its first pixel as written, and the picture if the counter started at 1 |
| RunLengths.DrawBg | pso_patcher/patcher/patcher.c:85-98 | the decoder fills the frame buffer with exactly the decoded pixels and leaves the rest |
| RunLengths.EncodeAndDraw | pso_patcher/img-enc/img-enc.c:68-92 | encoder and decoder together |
| Dns.UpperMergesCases | pso_dns/pso_dns.c:198-210 | two characters count as the same exactly when they are, or are one letter in both cases |
| Dns.CmpStr | pso_dns/pso_dns.c:198-210 | zero exactly when the name and the buffer's C string agree apart from case |
| Dns.Responder.FindHost | pso_dns/pso_dns.c:339-349 | the first host in the list with the name |
| Dns.Responder.ProcessQuery | pso_dns/pso_dns.c:395-455 | for any message: the reply, none, or the write in front of the buffer; otherwise the buffer length follows the read position and all accesses stay in bounds |
| Dns.WireReads | pso_dns/pso_dns.c:417-454 | the labels of a name in the wire form of section 4.1.2 of RFC 1035 are the labels that are read, wherever they stand, exactly when four more bytes follow |
| Dns.LabelsAreWire | pso_dns/pso_dns.c:417-454 | labels that are read stand there in wire form, with four more bytes behind them |
| Dns.DottedIs | pso_dns/pso_dns.c:437-454 | the dotted name: a label is its own name, and each further label stands behind a dot |
| Dns.AnswersExactly | pso_dns/pso_dns.c:395-455 | a query for a name other than the root is answered exactly when a configured host has the dotted name apart from case and the reply fits 512 bytes; type and class do not matter |
| Dns.AnswersOnly | pso_dns/pso_dns.c:395-455 | whatever the message, it is answered exactly when it asks with one question for the name of a configured host and the reply fits |
| Dns.UnderrunsExactly | pso_dns/pso_dns.c:430-437 | the write in front of the buffer happens exactly for queries with one question for the root name |
| Dns.RootQueryUnderruns | pso_dns/pso_dns.c:430-437 | a plain query for the address of the root is one |
| Dns.AnswerSays | pso_dns/pso_dns.c:351-393 | the reply repeats the question, and its record, read by following the pointer of section 4.1.4, has the question's name and the address of the host |

## Left out

- Sockets, select loops, threads, signals, daemonizing, temporary files and renames: sequences of bytes, images and lists of packets stand for them, and their failures are not modelled.
- ShipReader.ShipClient.ProcessPkt: the receive buffer is a sequence, so decrypting in place in the shared scratch buffer, and aliasing with it, are not captured; a header that declares 0, or more than 65536 minus the header size, is excluded, because the rounded 16-bit size is then zero and the code would decrypt a negative number of bytes.
- LoginReader.LoginClient.ReadFromClient: the same buffer on values; a header that declares less than a header is excluded too, because this reader delivers such a packet only at the next event, by a recv of no bytes; Dreamcast clients, whose packets are not padded on the wire, and telling Dreamcast from GameCube clients by their first packet is not modelled.
- Ciphers.StreamSession: the creation of keys is not modelled, so it holds for any key state; the unsequenced assignment of the GameCube cipher is read as the update it means.
- PrsDecoder.DecompressBuf: allocation failures, and the variants that read from files, are not modelled.
- AfsTool.Create, AfsTool.Add, AfsTool.Update and AfsTool.Delete: the text of item numbers is parsed outside; offsets and sizes from 2^32 on, which the table cannot hold, are excluded where the archive is said to scan.
- GslTool.Tool.Create: the base name of a path is a parameter; 48 times the count stays below 2^32 where the header is said to have room.
- BmlTool.UpdateBml: the header length stays below 2^32; a name is taken up to its first zero byte within the entry; sources are below 1 GiB so that compressed sizes are positive integers.
- BmlTool.NewPartDecompresses: extracting to files, and the listing of archives, are not modelled.
- Printing, extracting and listing of all three archive formats: they only read what a scan finds.
- PatchPaths.Wire.ChangeDirectory: packets are values, their encryption and output buffering are not modelled.
- PatchServer.PatchClient.SendFileChunk: the checksum of a chunk is any function; positions from 2^31 on, which overflow the connection's int, are not modelled.
- PatchConfig.HandlePatch: the XML library and number parsing are parameters; memory exhaustion is not modelled.
- The patch server's own packet reader, welcome texts and redirects: the same reassembly once more, and constant data.
- IsoFiles.Cdfs.Pread: the destination is the returned sequence, not a buffer that may alias; counts from 2^31 on, which do not fit the int result, are returned as they are.
- IsoDirs.LowFind: a read behind the sector buffer ends the model, since what lies there is not known; sector numbers do not wrap around.
- IsoDirs.Open: finding the data track in the table of contents is a parameter.
- lseek and the directory listing of the disc library: they would only add easy members.
- Experience.Player.ClientGiveExp: what the packets look like on the wire is not modelled; whether they can be sent is a parameter.
- Items.ItemAddToInv: the callers' updates of the inventory count are the lengths of the lists.
- RunLengths.Encode: the conversion of colours and the byte order of the output file are not modelled.
- Dns.Responder.ProcessQuery: the model ends with the write in front of the buffer, since what it overwrites is not known; reading the configuration and addresses is not modelled.
- Item and name tables, quest enemies, character files, logins, bans, lobbies and message texts: database access, dispatch and constant data.
