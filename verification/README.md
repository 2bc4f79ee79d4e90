# Verified models of TortoisePlink, po-merge and ResizableLib

Dafny models of the parts of the repository whose correctness is hard to see from any one function:
seven components, each with its loops and mutable state as methods and classes, each proved against
functions that say what it computes, and theorems about those functions over all inputs and all runs.
`dafny verify dfyconfig.toml` checks everything.

| files | component |
|---|---|
| `Bytes`, `Marshal`, `Ber`, `Mpint`, `Base64`, `Base64Words`, `KeyText`, `Keys` | the primitives of the private-key codecs |
| `OpensshPem*`, `OpensshNew*`, `OpensshKeyBlobs`, `SshCom*`, `KeyConversions`, `LineBreaks`, `EndOfData` | the three key formats: specification, `...Import` the readers and writers as loops, `...RoundTrip` what comes back, `...Files` which files are read and how, `...Answers` what any file can give; when the loaders come to an end |
| `Bufchain`, `InputQueue`, `LineEditor`, `LineKeys` | the line discipline: its input queue, its line editor, and what each key means |
| `PoFile`, `PoMerge`, `PoAccepts`, `PoLayout`, `PoDocument`, `PoMergeTool` | the .po merge tool: specification, the merge on maps, which files are accepted, every layout and every fault, the merge on whole files with its counts, loops |
| `ControlBox`, `ControlBoxRuns` | the order of a dialog template, and what a run of calls leaves in it |
| `CallbackQueue`, `CallbackHistory` | the callback list, the state machine it refines, and what becomes of each callback |
| `SessionLog`, `HexDump`, `HexDumpShown` | the session log and its packet dump, and what a reader sees in it |
| `AnchorLayout` | anchor arithmetic and the layout list |

What was found on the way, each with a lemma of its own:

- ldisc.c line 250 adds all the remaining bytes where the loop and its comment mean one chunk. The queue is
  still faithful if and only if every raw write has its FF bytes first (`QueueIsFaithfulIff`, `QueueDiverges`).
- Deleting the pending entry of an idempotent callback leaves its `queued` flag set, so that it can never be
  queued again (`HonouredIffNotStuck`, `StuckForGood`).
- `UpdateTranslation` looks at some lines before trimming them and `ParseTranslation` after, so the one refuses
  indented files that the other accepts: exactly those with an indented line that continues a msgid or ends an
  entry (`SameFilesAccepted`, `IndentedMsgidDiffers`, `IndentedEndDiffers`).
- A size that goes through `GetAnchorMargins` and back loses at most one pixel, and the lemma says when
  (`SizeComesBack`).
- The round trips of the old key formats return the same blobs exactly for canonical integers; other integers
  come back in canonical form (`RoundTripIffCanonical`).
- get_chomped_line does not report the end of the data, so that the three key loaders never answer "unexpected
  end of file". They read empty lines for ever unless the text has an END line or a line they refuse
  (`EndOfData.NewAnswersIff`, `PemAnswersIff`, `SshComAnswersIff`; `NewNeverAnswers` and its siblings show a file).

Files are sequences of lines, texts or bytes; random bytes, the answers of the user, the state of the disk and
the cryptographic functions are parameters. Ciphers are assumed only to keep whole blocks whole and to be undone
by decryption (`Keys.Suite.Sound`). A method that is marked as reading or writing "as written" follows the code
even where its comment says something else.
Lemmas by induction carry `{:induction false}`: each induction is spelled out in a body.

## Model

| member | source | states |
|---|---|---|
| `Bytes.Get32OfPut32` | ext/TortoisePlink/utils/marshal.c:48-53 | reading four big-endian bytes gives back the number that was written, modulo 2^32 |
| `Marshal.Strbuf.PutString` | ext/TortoisePlink/utils/marshal.c:62-70 | appends the 32-bit length and then the bytes; longer strings are the caller's error |
| `Marshal.Strbuf.PutPadding` | ext/TortoisePlink/utils/marshal.c:19-28 | the sixteen-at-a-time loop appends exactly the requested number of padding bytes |
| `Marshal.Strbuf.Patch32` | ext/TortoisePlink/import.c:2249-2265 | overwrites four bytes in place and leaves every other byte of the buffer alone |
| `Marshal.BinarySource.ReadData` | ext/TortoisePlink/utils/marshal.c:124-149 | a read past the end sets the error for good, answers nothing, and does not move |
| `Marshal.BinarySource.ReadString` | ext/TortoisePlink/utils/marshal.c:206-221 | reads a length and that many bytes, or fails and stays failed |
| `Marshal.GetStringOfPut` | ext/TortoisePlink/utils/marshal.c:206-221 | reading a written string returns it and leaves what follows untouched |
| `Marshal.GetAscizOfPut` | ext/TortoisePlink/utils/marshal.c:223-239 | the same for a NUL-terminated string without NUL inside |
| `Marshal.NothingToRead` | ext/TortoisePlink/utils/marshal.c:124-239 | after an error, and for want of data, the readers answer nothing, and the error stays |
| `Marshal.Strbuf.PutUint32` | ext/TortoisePlink/utils/marshal.c:48-53 | appends the four big-endian bytes of a number modulo 2^32 |
| `Marshal.Strbuf.PutAsciz` | ext/TortoisePlink/utils/marshal.c:88-91 | appends the bytes and a NUL |
| `Marshal.BinarySource.DataAvail` | ext/TortoisePlink/utils/marshal.c:124-141 | checks what is left; a lack of data sets the error for good |
| `Marshal.BinarySource.ReadByte` | ext/TortoisePlink/utils/marshal.c:151-160 | reads one byte, or answers zero |
| `Marshal.BinarySource.ReadUint32` | ext/TortoisePlink/utils/marshal.c:184-193 | reads four bytes, or answers zero |
| `Marshal.BinarySource.ReadAsciz` | ext/TortoisePlink/utils/marshal.c:223-239 | reads up to the first NUL and skips it, or fails |
| `Marshal.GetStringIsPut` | ext/TortoisePlink/utils/marshal.c:206-221 | and the converse: what a string was read from is its length, its bytes and the rest |
| `Ber.PutBerIdLen` | ext/TortoisePlink/import.c:212-253 | the two counting loops and the two emitting loops write the identifier and length octets of X.690 |
| `Ber.ReadBer` | ext/TortoisePlink/import.c:264-296 | the do-while over identifier octets and the loop over length octets read what GetBer specifies |
| `Ber.GetBerOfElement` | ext/TortoisePlink/import.c:212-296 | for every id, flags and contents, reading a written element returns them and stops exactly behind it |
| `Ber.HeaderIsShortest` | ext/TortoisePlink/import.c:212-253 | no header that the reader would understand in the same way has fewer octets (sections 8.1.2 and 10.1 of X.690) |
| `Ber.NumDigitsIsFirstZeroShift` | ext/TortoisePlink/import.c:229-230 | the counting loop stops at the least number of groups that holds the value |
| `Ber.LongLength` | ext/TortoisePlink/import.c:284-292 | the long form of a length may have any number of octets, leading zeros too, and a 64-bit size_t takes its last bits |
| `Ber.CountDigits` | ext/TortoisePlink/import.c:229-230 | the counting loop |
| `Ber.PutId` | ext/TortoisePlink/import.c:215-233 | the identifier octets, short and long |
| `Ber.PutLength` | ext/TortoisePlink/import.c:235-252 | the length octets, short and long |
| `Ber.PutElement` | ext/TortoisePlink/import.c:936-939 | a header followed by its contents |
| `Ber.ReadId` | ext/TortoisePlink/import.c:270-282 | the loop over identifier octets ends at one without continuation bit, or at the end of the data |
| `Ber.ReadLength` | ext/TortoisePlink/import.c:284-292 | the loop over length octets, in a 64-bit size_t |
| `Mpint.CanonIsCanonical` | ext/TortoisePlink/import.c:320-335 | what is written is a canonical mpint (section 5 of RFC 4251), and a string is left alone exactly if it already was one |
| `Mpint.CanonKeepsValue` | ext/TortoisePlink/import.c:320-335 | dropping leading zeros and adding a sign byte keeps the number |
| `Mpint.CanonDeterminedByValue` | ext/TortoisePlink/import.c:320-335 | two strings are written alike exactly if they are the same number |
| `Mpint.PutMpSsh2FromString` | ext/TortoisePlink/import.c:320-335 | the loop over leading zeros appends the length and bytes of the canonical mpint |
| `Mpint.PutMpSshcomFromString` | ext/TortoisePlink/import.c:1896-1911 | the bit-by-bit loop appends the bit count and the bytes that are kept |
| `Mpint.ReadMpSshcomAsString` | ext/TortoisePlink/import.c:1916-1920 | reads a bit count and the (bits+7)/8 bytes it stands for |
| `Mpint.BitCountIsBitLength` | ext/TortoisePlink/import.c:1896-1911 | the written bit count is the bit length of the number, 1 for a non-empty zero and 0 for the empty string |
| `Mpint.KeptMatchesBitCount` | ext/TortoisePlink/import.c:1896-1920 | the bytes written are exactly as many as the reader takes from the bit count |
| `Mpint.GetMpSshcomOfPut` | ext/TortoisePlink/import.c:1896-1920 | the reader undoes the writer and leaves what follows untouched |
| `Mpint.CanonOfKept` | ext/TortoisePlink/import.c:2085-2091 | making an ssh.com integer an mpint gives the canonical mpint of the original number |
| `Base64.DecodeAtomOfEncode` | ext/TortoisePlink/utils/base64_decode_atom.c:8-54 | decoding an encoded atom returns its one, two or three bytes |
| `Base64.Encode` | ext/TortoisePlink/utils/base64_encode.c:3-26 | wrapping one character at a time gives lines of the requested width, each ended by a newline; a width of 0 leaves the text in one piece |
| `Base64.FeedTwoLines` | ext/TortoisePlink/import.c:446-468 | the carry makes line breaks irrelevant: feeding two lines is feeding their concatenation |
| `Base64.FeedOfEncode` | ext/TortoisePlink/import.c:446-468 | whatever was decoded before, the carry recovers exactly the encoded bytes and ends empty |
| `Base64.FeedLine` | ext/TortoisePlink/import.c:446-468 | the loader's character loop does to its carry and blob what Feed says |
| `Base64.AtomIsGoodIff` | ext/TortoisePlink/utils/base64_decode_atom.c:14-39 | four characters are an atom if and only if padding stands in the last place or the last two and the others are of the alphabet |
| `Base64.AtomSays` | ext/TortoisePlink/utils/base64_decode_atom.c:38-53 | what an atom says, bit for bit, for any four digits and any padding |
| `Base64.PutAtom` | ext/TortoisePlink/utils/base64_encode.c:15-22 | the inner loop continues the wrapped text by four characters |
| `KeyText.TextSource.GetLine` | ext/TortoisePlink/import.c:62-71 | takes one line off the text, as get_chomped_line and mkstr do |
| `KeyText.NextLineOfWritten` | ext/TortoisePlink/utils/marshal.c:265-286 | a line without NUL, newline or final carriage return comes back as it was written |
| `KeyText.ReadHexOfHex` | ext/TortoisePlink/import.c:1067-1068 | the hexadecimal iv reads back as its bytes |
| `LineBreaks.LineEndsDoNotMatter` | ext/TortoisePlink/import.c:62-71 | none of the three readers answers differently if some lines end in CR LF instead of LF, or go on behind a NUL |
| `LineBreaks.SameLinesSameAnswer` | ext/TortoisePlink/import.c:339-2144 | the three readers see the lines of a text and nothing else |
| `Keys.KeyIsInjective` | ext/TortoisePlink/import.c:697-770 | equal blobs mean equal integers: nothing of a key is lost in its two blobs |
| `Keys.KeyIsCanonical` | ext/TortoisePlink/import.c:709-770 | writing every integer canonically leaves the key alone exactly if the integers were canonical |
| `Keys.PartsOfKey` | ext/TortoisePlink/import.c:855-919 | taking the blobs apart returns the integers, in order |
| `OpensshPemImport.LoadKey` | ext/TortoisePlink/import.c:339-505 | header line, headers, carry over body lines and END line, with every error exit; NoAnswer exactly where the loop never ends |
| `OpensshPemImport.ReadIntegers` | ext/TortoisePlink/import.c:707-757 | the loop over the INTEGERs: n saved and written after e, dmp1 and dmq1 dropped, the split between the halves |
| `OpensshPemImport.ReadEcdsaKey` | ext/TortoisePlink/import.c:638-705 | one source pointed at three blocks; only the last error is looked at |
| `OpensshPemImport.ReadKey` | ext/TortoisePlink/import.c:551-800 | the whole reader is the specification that the rows of OpensshPemFiles and OpensshPemAnswers describe |
| `OpensshPemImport.WriteEcdsa` | ext/TortoisePlink/import.c:943-1001 | the nested elements are built in sub-buffers; the point starts at offset 39 of the public blob |
| `OpensshPemImport.WriteKey` | ext/TortoisePlink/import.c:802-1088 | the text that is written, with padding, encryption and headers when there is a passphrase |
| `OpensshPemImport.ExportAndImport` | ext/TortoisePlink/import.c:551-1088 | the writing and the reading loops run one after the other return the canonical key |
| `OpensshPemImport.ParseIv` | ext/TortoisePlink/import.c:429-441 | reads exactly the iv bytes the cipher needs |
| `OpensshPemImport.ProcessHeader` | ext/TortoisePlink/import.c:405-442 | what the two known headers do to the loader, and which of their values are errors |
| `OpensshPemImport.ProcessLine` | ext/TortoisePlink/import.c:400-469 | a header before the body, or a piece of the body |
| `OpensshPemImport.BuildEcdsaKey` | ext/TortoisePlink/import.c:673-699 | the curve and length checks, and the two blobs cut from one buffer |
| `OpensshPemImport.ReadSequenceKey` | ext/TortoisePlink/import.c:629-770 | the contents of the SEQUENCE, for each key type |
| `OpensshPemImport.TakeStrings` | ext/TortoisePlink/import.c:855-863 | reading the strings of a blob in a row |
| `OpensshPemImport.WriteIntegers` | ext/TortoisePlink/import.c:935-939 | the loop that writes the INTEGERs |
| `OpensshPemImport.PutWrapped` | ext/TortoisePlink/import.c:976-984 | an element inside a context-specific one, by way of a sub-buffer |
| `OpensshPemImport.WriteInner` | ext/TortoisePlink/import.c:836-1001 | the contents of the SEQUENCE, for each key type |
| `OpensshPemRoundTrip.SequenceOfRsa` | ext/TortoisePlink/import.c:713-757 | the nine integers of an RSA key become its two blobs again, through the reordering and the two dropped ones |
| `OpensshPemRoundTrip.SequenceOfDsa` | ext/TortoisePlink/import.c:748-756 | the six integers of a DSA key become its two blobs again |
| `OpensshPemRoundTrip.SequenceOfEcdsa` | ext/TortoisePlink/import.c:638-705 | curve, point and scalar of an ECDSA key come back |
| `OpensshPemRoundTrip.ReadOfFile` | ext/TortoisePlink/import.c:551-1088 | for every RSA, DSA and ECDSA key, with or without a passphrase, reading the written file gives the key with each integer in canonical form |
| `OpensshPemRoundTrip.RoundTripIffCanonical` | ext/TortoisePlink/import.c:551-1088 | it gives the very same blobs if and only if the integers were canonical |
| `OpensshNewImport.LoadBlobLines` | ext/TortoisePlink/import.c:1135-1189 | the loader's line loop, down to a body that is not present; NoAnswer exactly where the loop never ends |
| `OpensshNewImport.ReadContainer` | ext/TortoisePlink/import.c:1191-1280 | magic, cipher, derivation, options, key count and container, with each error exit and its own message |
| `OpensshNewImport.ReadPrivate` | ext/TortoisePlink/import.c:1399-1474 | check integers, key type, self-delimiting blob, comment and padding |
| `OpensshNewImport.CheckPadding` | ext/TortoisePlink/import.c:1464-1474 | the padding loop accepts exactly the bytes 1, 2, 3, ... counted in an unsigned char |
| `OpensshNewImport.PadSection` | ext/TortoisePlink/import.c:1568-1572 | the do-while pads with at least one byte, up to the next multiple of sixteen |
| `OpensshNewImport.WriteKey` | ext/TortoisePlink/import.c:1494-1619 | the text that is written |
| `OpensshNewImport.ExportAndImport` | ext/TortoisePlink/import.c:1320-1619 | the writing and the reading loops run one after the other return the key and its comment |
| `OpensshNewImport.ReadKdf` | ext/TortoisePlink/import.c:1225-1246 | the options that each key derivation must have |
| `OpensshNewImport.ReadKey` | ext/TortoisePlink/import.c:1320-1492 | the whole reader is the specification that the rows of OpensshNewFiles describe |
| `OpensshNewImport.WritePreamble` | ext/TortoisePlink/import.c:1525-1541 | the names of cipher and derivation, and its options |
| `OpensshNewImport.WriteSection` | ext/TortoisePlink/import.c:1551-1572 | the private section, padded |
| `OpensshNewRoundTrip.LoadBlobOfText` | ext/TortoisePlink/import.c:1147-1189 | the loader recovers the blob from the lines that were written |
| `OpensshNewRoundTrip.ContainerOfBlob` | ext/TortoisePlink/import.c:1191-1280 | the container fields come back |
| `OpensshNewRoundTrip.PaddingIsRamp` | ext/TortoisePlink/import.c:1464-1474 | the reader accepts a padding if and only if it is the ramp that the writer makes for that length |
| `OpensshNewRoundTrip.PadIsLeast` | ext/TortoisePlink/import.c:1568-1572 | no shorter non-empty padding reaches a multiple of sixteen |
| `OpensshNewRoundTrip.ReadOfFile` | ext/TortoisePlink/import.c:1320-1619 | reading the written file returns key and comment, for every key whose blob is self-delimiting |
| `OpensshKeyBlobs.FoundByName` | ext/TortoisePlink/sshpubk.c:574-581 | an algorithm is found exactly by its name |
| `OpensshKeyBlobs.IntegersMakeKey` | ext/TortoisePlink/crypto/rsa.c:591-613 | the strings of an RSA or DSA key make it if and only if all are canonical mpints and its numbers pass the checks; otherwise there is an error, or no key (crypto/dsa.c lines 285-306 and crypto/mpint.c lines 636-651) |
| `OpensshKeyBlobs.PointMakesKey` | ext/TortoisePlink/crypto/ecc-ssh.c:918-942 | the same for an ECDSA key, whose curve name is skipped and whose point is what its curve makes of it; after what is no point nothing more is read |
| `OpensshKeyBlobs.ShortBlob` | ext/TortoisePlink/crypto/rsa.c:591-613 | a blob that ends in its first string makes no key and leaves an error |
| `OpensshKeyBlobs.StandardIsSelfDelimiting` | ext/TortoisePlink/crypto/rsa.c:591-625 | the concrete blobs of valid RSA, DSA and ECDSA keys are self-delimiting, so the previous rows apply to them (crypto/dsa.c lines 285-316 and crypto/ecc-ssh.c lines 917-950 hold the other two) |
| `SshComImport.UnfoldLine` | ext/TortoisePlink/import.c:1773-1798 | the loop that joins backslash-continued header lines; behind the last line it takes the backslashes away one by one |
| `SshComImport.LoadKey` | ext/TortoisePlink/import.c:1741-1859 | header line, headers, body and END line, with every error exit; NoAnswer exactly where the loop never ends |
| `SshComImport.TakeTurn` | ext/TortoisePlink/import.c:1767-1849 | one turn of the loop: a header with the lines it continues on, or a line of the body |
| `SshComImport.ReadKey` | ext/TortoisePlink/import.c:1945-2144 | the whole reader is the specification that the rows of SshComFiles and SshComAnswers describe |
| `SshComImport.AssembleBlob` | ext/TortoisePlink/import.c:2233-2265 | placeholders are appended and patched in place; the result has the right three lengths |
| `SshComImport.WriteComment` | ext/TortoisePlink/import.c:2292-2308 | the folding loop |
| `SshComImport.WriteKey` | ext/TortoisePlink/import.c:2146-2322 | the text that is written, or a refusal for key types the format lacks |
| `SshComImport.ExportAndImport` | ext/TortoisePlink/import.c:1945-2322 | the writing and the reading loops run one after the other return the canonical key, and refuse an ECDSA key |
| `SshComImport.ReadMps` | ext/TortoisePlink/import.c:2072-2081 | reading integers in a row; an error shows only at the end |
| `SshComImport.BuildRsaKey` | ext/TortoisePlink/import.c:2083-2091 | p and q change places on the way into the private blob |
| `SshComImport.BuildDsaKey` | ext/TortoisePlink/import.c:2111-2118 | g and q change places on the way into the public blob |
| `SshComImport.ReadPayloadOf` | ext/TortoisePlink/import.c:2069-2119 | six integers, or a zero and five |
| `SshComImport.ReadKeyBlob` | ext/TortoisePlink/import.c:1964-2061 | magic, type, cipher, ciphertext and containing string, with each error exit |
| `SshComImport.TakeNumbers` | ext/TortoisePlink/import.c:2173-2231 | the integers of a key in the order of the file |
| `SshComImport.PutPlaceholders` | ext/TortoisePlink/import.c:2238-2244 | the front of the blob with lengths to be filled in |
| `SshComImport.WriteMps` | ext/TortoisePlink/import.c:2247-2248 | the loop that writes the integers |
| `SshComImport.FillPayloadLength` | ext/TortoisePlink/import.c:2249-2251 | the payload length is patched in place |
| `SshComImport.FillOuterLengths` | ext/TortoisePlink/import.c:2262-2265 | the ciphertext length and the total length are patched in place |
| `SshComImport.WriteBlob` | ext/TortoisePlink/import.c:2233-2282 | the finished blob, encrypted in place when there is a passphrase |
| `SshComImport.EncryptTail` | ext/TortoisePlink/import.c:2270-2282 | only the ciphertext part of the buffer changes |
| `SshComRoundTrip.UnfoldOfFold` | ext/TortoisePlink/import.c:2292-2308 | unfolding what the folding wrote gives back the comment, also when it holds backslashes, quotes and colons |
| `SshComRoundTrip.CommentSurvivesIff` | ext/TortoisePlink/import.c:1764-1808 | a one-line comment is read back whole if and only if it has at most 255 characters |
| `SshComRoundTrip.UnloadableCommentIsLost` | ext/TortoisePlink/import.c:1764-1808 | no file at all reads back as a key whose comment is longer or has a newline |
| `SshComRoundTrip.GetMpsOfPut` | ext/TortoisePlink/import.c:2072-2105 | integers written in a row are read back in a row |
| `SshComRoundTrip.ReadOfFile` | ext/TortoisePlink/import.c:1945-2322 | for every RSA and DSA key, with or without a passphrase, reading the written file gives the canonical key and the first 255 characters of the comment |
| `SshComRoundTrip.RoundTripIffCanonical` | ext/TortoisePlink/import.c:1945-2322 | it gives the very same blobs and comment if and only if the integers were canonical and the comment short enough |
| `EndOfData.NewAnswersIff` | ext/TortoisePlink/import.c:1147-1183 | the loop as written leaves, within one turn more than the text has characters, if and only if there is an END line or four base64 characters that are no atom; the model answers NoAnswer exactly otherwise, and the loop's own answer when there is one |
| `EndOfData.PemAnswersIff` | ext/TortoisePlink/import.c:389-483 | the same for the PEM loader, which also leaves at a bad header or at a header behind the first line of the body |
| `EndOfData.SshComAnswersIff` | ext/TortoisePlink/import.c:1754-1849 | the same for the ssh.com loader, over the lines as its headers join them |
| `EndOfData.NewNeverAnswers` | ext/TortoisePlink/import.c:1147-1183 | after any number of turns the loop is still reading a file of a BEGIN line and one line of base64 |
| `EndOfData.PemNeverAnswers` | ext/TortoisePlink/import.c:389-483 | the same for the PEM loader and each kind of key |
| `EndOfData.SshComNeverAnswers` | ext/TortoisePlink/import.c:1754-1849 | the same for the ssh.com loader |
| `EndOfData.EndIsSwallowed` | ext/TortoisePlink/import.c:1773-1798 | an END line behind a header that ends in a backslash is taken as its continuation, and the loop never leaves |
| `EndOfData.FeedFindsBadAtom` | ext/TortoisePlink/import.c:446-468 | the carry fails exactly when its characters, cut into fours, have one that is no atom |
| `OpensshNew.TurnsOfLines` | ext/TortoisePlink/import.c:1147-1183 | the loop as written, cut off after n turns, has left with the answer of the specification, or never will |
| `OpensshPem.TurnsOfLines` | ext/TortoisePlink/import.c:389-483 | the same for the PEM loader |
| `SshCom.TurnsOfLines` | ext/TortoisePlink/import.c:1754-1849 | the same for the ssh.com loader |
| `KeyConversions.ConvertThrough` | ext/TortoisePlink/cgtest.c:594-605 | a valid canonical key goes through any number of conversions in any formats unchanged, and the comment too, if PEM is not among them; only an ECDSA key is refused, and exactly when ssh.com is |
| `KeyConversions.Convert` | ext/TortoisePlink/cgtest.c:594-605 | one export and import, in any of the three formats, or the refusal of an ECDSA key by ssh.com |
| `Bufchain.Chain.Add` | ext/TortoisePlink/utils/bufchain.c:63-98 | filling the last granule and adding a new one appends the data |
| `Bufchain.Chain.Prefix` | ext/TortoisePlink/utils/bufchain.c:123-126 | some non-empty initial part of the data |
| `Bufchain.Chain.Consume` | ext/TortoisePlink/utils/bufchain.c:100-121 | drops that many bytes, across granules |
| `Bufchain.Chain.FetchConsume` | ext/TortoisePlink/utils/bufchain.c:128-154 | returns and drops that many bytes, across granules |
| `Bufchain.Chain.Size` | ext/TortoisePlink/utils/bufchain.c:50-53 | the number of bytes in all granules |
| `InputQueue.Ldisc.ToBackendRaw` | ext/TortoisePlink/ldisc.c:234-259 | as written: sends when the session is willing, and otherwise adds all remaining bytes at every chunk |
| `InputQueue.Ldisc.ToBackendRawByChunk` | ext/TortoisePlink/ldisc.c:241-257 | adding only the chunk, as the comment means it: the queue grows by the encoding of the bytes |
| `InputQueue.Ldisc.ToBackendSpecial` | ext/TortoisePlink/ldisc.c:261-278 | the nine-byte encoding of a special |
| `InputQueue.Ldisc.GetInputToken` | ext/TortoisePlink/ldisc.c:285-317 | takes the first byte or special off the queue |
| `InputQueue.Ldisc.Flush` | ext/TortoisePlink/ldisc.c:319-356 | whatever granules the queue is stored in, the session receives what decoding token by token gives, in order, and the queue ends empty |
| `InputQueue.DecodeOfEncode` | ext/TortoisePlink/ldisc.c:234-317 | decoding undoes the encoding of every list of bytes and specials, any 32-bit argument included |
| `InputQueue.EncodeOfDecode` | ext/TortoisePlink/ldisc.c:285-317 | a queue that can be read has one reading and is that reading's only encoding |
| `InputQueue.QueueIsFaithfulIff` | ext/TortoisePlink/ldisc.c:241-257 | as written, a queue of writes reads back as those writes if and only if in each of them every FF comes before every other byte |
| `InputQueue.QueueDiverges` | ext/TortoisePlink/ldisc.c:250 | the three bytes "a FF b" are queued as six, which cannot be read at all |
| `InputQueue.Ldisc.QueueThenDrain` | ext/TortoisePlink/ldisc.c:234-317 | queuing any session and then fetching tokens until empty returns it, chunk by chunk always and as written under that condition |
| `InputQueue.Ldisc.QueueThenFlush` | ext/TortoisePlink/ldisc.c:234-356 | the same when the session becomes willing and the queue is flushed |
| `InputQueue.Ldisc.DrainTokens` | ext/TortoisePlink/ldisc.c:285-317 | fetching tokens until nothing is left gives the reading of the queue |
| `LineEditor.RenderWidth` | ext/TortoisePlink/ldisc.c:83-114 | plen agrees with pwrite: a buffer shows as many cells as its plens add up to |
| `LineEditor.ShowPwrite` | ext/TortoisePlink/ldisc.c:98-114 | echoing a byte adds it to the row, be it plain, control, high or a UTF-8 continuation |
| `LineEditor.ShowRubout` | ext/TortoisePlink/ldisc.c:124-128 | backspace, space, backspace removes the last cell and leaves blanks behind the cursor |
| `LineEditor.DropCharOfTyped` | ext/TortoisePlink/ldisc.c:415-424 | backspace undoes typing one character, however many bytes it has |
| `LineEditor.KillWordIsLongest` | ext/TortoisePlink/ldisc.c:425-435 | ^W leaves the longest proper prefix that is empty or ends between a space and a non-space |
| `LineEditor.Editor.DeleteChar` | ext/TortoisePlink/ldisc.c:415-424 | the do-while loop drops exactly the last character and its cells |
| `LineEditor.Editor.DeleteWord` | ext/TortoisePlink/ldisc.c:425-435 | the loop with its break drops what KillWord says, and its cells |
| `LineEditor.Editor.DeleteLine` | ext/TortoisePlink/ldisc.c:436-444 | the loop empties the buffer and the row |
| `LineEditor.Editor.Redraw` | ext/TortoisePlink/ldisc.c:462-469 | "^R", a new line and the buffer are written, and the new row shows the buffer |
| `LineEditor.Editor.HandleKey` | ext/TortoisePlink/ldisc.c:394-534 | the switch does to the line, and sends and writes, what the specification of a key says, which the rows of LineKeys describe, and the row shows the buffer |
| `LineEditor.Editor.Send` | ext/TortoisePlink/ldisc.c:363-535 | over any input, also a character split between two calls, after every key the row since the line mark shows the buffer, and what was sent and echoed is what the keys mean |
| `LineEditor.QuotedLineIsSent` | ext/TortoisePlink/ldisc.c:470-472 | any bytes at all can be entered with ^V and are sent as one line by Enter |
| `LineEditor.Editor.PWrite` | ext/TortoisePlink/ldisc.c:98-114 | writes a byte as itself, as a caret sequence, or in hexadecimal |
| `LineEditor.Editor.Bsb` | ext/TortoisePlink/ldisc.c:124-128 | the loop rubs out that many cells |
| `LineEditor.Editor.InsertByte` | ext/TortoisePlink/ldisc.c:526-533 | appends a byte and echoes it; quoting ends |
| `LineEditor.Editor.SendLine` | ext/TortoisePlink/ldisc.c:511-523 | sends the line and the end of line of the protocol; the row starts anew |
| `LineEditor.Editor.Logout` | ext/TortoisePlink/ldisc.c:473-480 | ^D sends the line without an end, or the end of file |
| `LineEditor.Editor.DeleteReturn` | ext/TortoisePlink/ldisc.c:505-509 | the carriage return and its two cells are taken back |
| `LineEditor.Editor.InterruptLine` | ext/TortoisePlink/ldisc.c:445-461 | ^C, ^\\ and ^Z delete the line and send a special, or become its first character |
| `PoMergeTool.ParseTranslation` | contrib/Utils/po-merge.cs:66-162 | the nested loops over the lines compute Parse, errors included |
| `PoMergeTool.UpdateTranslation` | contrib/Utils/po-merge.cs:167-299 | the nested loops over the lines, with writer and counters, compute Merge, errors included |
| `PoMergeTool.ReadContinuations` | contrib/Utils/po-merge.cs:104-117 | the loop over quoted continuation lines, and the line that ends it |
| `PoMergeTool.ReadEntry` | contrib/Utils/po-merge.cs:92-144 | msgid and msgstr of one entry, with the error exits in between |
| `PoMergeTool.WriteEntry` | contrib/Utils/po-merge.cs:256-280 | the entry is written and counted as specified; CountsAreRight says what the counts are |
| `PoMergeTool.ReplaceTranslations` | contrib/Utils/po-merge.cs:51-60 | the program itself, loop after loop: its output reads as the old map with the updates and as the old file edited, and its counts are those of the messages |
| `PoMergeTool.StreamReader.ReadLine` | contrib/Utils/po-merge.cs:76 | the next line, or nothing at the end |
| `PoMergeTool.StreamWriter.WriteLine` | contrib/Utils/po-merge.cs:262-264 | a text with line breaks becomes several lines |
| `PoMerge.MergeAcceptsLess` | contrib/Utils/po-merge.cs:66-299 | every file that UpdateTranslation accepts, ParseTranslation accepts |
| `PoMerge.EntryOfWritten` | contrib/Utils/po-merge.cs:262-280 | what is printed for an entry is read as that entry by either parser, also a header of many lines |
| `PoMerge.ParseGivesCleanUpdates` | contrib/Utils/po-merge.cs:146 | translations read by ParseTranslation can be printed on one line |
| `PoMerge.MergeReplaces` | contrib/Utils/po-merge.cs:66-299 | the output parses to the old map with exactly the non-empty msgids replaced whose update is not empty, the header as it was |
| `PoMerge.MergeAgain` | contrib/Utils/po-merge.cs:175-293 | merging the same updates into the output reproduces its lines and reports nothing updated |
| `PoMerge.CountsAddUp` | contrib/Utils/po-merge.cs:256-293 | total is translated plus untranslated, and no more are updated than translated |
| `PoMerge.ProgramIsCorrect` | contrib/Utils/po-merge.cs:51-60 | the three previous rows for the two files of the program |
| `PoAccepts.SameFilesAccepted` | contrib/Utils/po-merge.cs:66-299 | UpdateTranslation accepts a file if and only if ParseTranslation does and no line is indented that continues a msgid or ends an entry |
| `PoAccepts.IndentedEndDiffers` | contrib/Utils/po-merge.cs:285 | an indented comment, or a line of spaces, right behind an entry is accepted by the one and refused by the other |
| `PoAccepts.MsgidRun` | contrib/Utils/po-merge.cs:219-230 | behind a msgid both read the same continuation lines, or there is bad indentation and UpdateTranslation stops inside them |
| `PoAccepts.IndentedMsgidDiffers` | contrib/Utils/po-merge.cs:219-230 | an indented continuation of a msgid is accepted by the one and refused by the other |
| `ControlBox.PathCompare` | ext/TortoisePlink/dialog.c:26-40 | the character loop counts the leading path elements in common, or finds the paths identical |
| `ControlBox.ClosenessIsUltrametric` | ext/TortoisePlink/dialog.c:26-40 | two paths are as close as the lesser of their closenesses to a third |
| `ControlBox.InsertKeepsOrder` | ext/TortoisePlink/dialog.c:138-146 | inserting at the place that was found keeps every three paths in order |
| `ControlBox.FindsFirstMatch` | ext/TortoisePlink/dialog.c:89-108 | the search stops at the first exact match if there is one |
| `ControlBox.StopIsInsertionPoint` | ext/TortoisePlink/dialog.c:89-162 | where the two callers insert, closeness has not fallen before and does not rise after |
| `ControlBox.NamedIsFound` | ext/TortoisePlink/dialog.c:156-162 | looking through the run of sets with the path finds the name if any set in the box has both |
| `ControlBox.ApplyKeepsGood` | ext/TortoisePlink/dialog.c:128-177 | both calls keep the order, and no two sets share a path and a name |
| `ControlBox.PathsAreContiguous` | ext/TortoisePlink/dialog.c:128-177 | after any calls on a new box, the sets with one path and those under one prefix each stand together |
| `ControlBox.Box.FindSet` | ext/TortoisePlink/dialog.c:89-108 | the loop returns the first stop, and otherwise the end |
| `ControlBox.Box.FindPath` | ext/TortoisePlink/dialog.c:115-126 | the next set with that path and none skipped, or -1 if there is none |
| `ControlBox.Box.VisitPath` | ext/TortoisePlink/dialog.c:110-126 | the loop over ctrl_find_path visits exactly the sets with that path, once each and in order |
| `ControlBox.Box.SetTitle` | ext/TortoisePlink/dialog.c:128-148 | a new title set goes in front of the sets with that path |
| `ControlBox.Box.GetSet` | ext/TortoisePlink/dialog.c:150-177 | returns the set of that path and name, which is new only if there was none |
| `ControlBox.SamePathTogether` | ext/TortoisePlink/dialog.c:84-108 | in an ordered list the sets with one path stand together |
| `ControlBox.PrefixTogether` | ext/TortoisePlink/dialog.c:84-108 | so do the sets under one path prefix |
| `ControlBox.NoValley` | ext/TortoisePlink/dialog.c:89-108 | along an ordered list, closeness to any path rises and then falls |
| `ControlBox.Box.Search` | ext/TortoisePlink/dialog.c:155-162 | the loop over the sets with the path finds the name, or their end |
| `ControlBox.Box.Insert` | ext/TortoisePlink/dialog.c:141-146 | makes room and puts the new set there |
| `CallbackQueue.Callbacks.QueueToplevelCallback` | ext/TortoisePlink/callback.c:72-100 | a node is linked at the tail of the heap list, and the front end notified, as the state machine says |
| `CallbackQueue.Callbacks.QueueIdempotentCallback` | ext/TortoisePlink/callback.c:36-42 | nothing happens while the flag is set |
| `CallbackQueue.LinkKept` | ext/TortoisePlink/callback.c:48-64 | the surviving nodes are linked up again in place, in order, with a new head and tail |
| `CallbackQueue.LinkNext` | ext/TortoisePlink/callback.c:52-63 | one turn of that loop |
| `CallbackQueue.Callbacks.DeleteCallbacksForContext` | ext/TortoisePlink/callback.c:44-70 | removes the entries that concern a context, also through an idempotent callback, and nothing else |
| `CallbackQueue.Callbacks.BeginCallback` | ext/TortoisePlink/callback.c:102-121 | the head becomes the current callback, and an idempotent one may be queued again from now on |
| `CallbackQueue.Callbacks.EndCallback` | ext/TortoisePlink/callback.c:122-126 | no callback is current any more |
| `CallbackQueue.Callbacks.ToplevelCallbackPending` | ext/TortoisePlink/callback.c:130-133 | true while an entry waits or runs |
| `CallbackQueue.Callbacks.Perform` | ext/TortoisePlink/callback.c:29-133 | under any interleaving, also from a new list with new idempotent callbacks, the list stays acyclic with the tail its last node, and does what the state machine does |
| `CallbackQueue.RunKeepsInvariant` | ext/TortoisePlink/callback.c:29-133 | every run keeps the order of queueing and the meaning of the flags |
| `CallbackQueue.EachRunsOnce` | ext/TortoisePlink/callback.c:29-128 | whatever was queued and not deleted ran once or waits once, in the order of queueing |
| `CallbackQueue.WaitsOnce` | ext/TortoisePlink/callback.c:36-42 | an idempotent callback waits at most once, and only with its flag set |
| `CallbackQueue.DrainRunsAll` | ext/TortoisePlink/callback.c:102-128 | as many turns as there are entries run them all in order |
| `CallbackQueue.NotifiedWhenBusy` | ext/TortoisePlink/callback.c:80-92 | over a whole run the front end is notified as often as the queue goes from empty and idle to not empty |
| `CallbackQueue.HonouredIffNotStuck` | ext/TortoisePlink/callback.c:36-70 | asking for an idempotent callback makes it wait if and only if no entry of it was ever deleted |
| `CallbackQueue.StuckForGood` | ext/TortoisePlink/callback.c:36-70 | a callback whose entry was deleted never waits or runs again |
| `CallbackQueue.DeletedCallbackIsLost` | ext/TortoisePlink/callback.c:44-70 | a run of three calls that shows it |
| `CallbackQueue.Callbacks.RequestCallbackNotifications` | ext/TortoisePlink/callback.c:22-27 | from now on the front end is notified, or not |
| `CallbackQueue.Callbacks.Link` | ext/TortoisePlink/callback.c:76-99 | notification and linking, for both kinds of callback |
| `CallbackQueue.Callbacks.PushBack` | ext/TortoisePlink/callback.c:94-99 | a new node becomes the tail |
| `CallbackQueue.Callbacks.PopFront` | ext/TortoisePlink/callback.c:113-116 | the head becomes the current node, and the tail goes with the last one |
| `CallbackQueue.Callbacks.Unlink` | ext/TortoisePlink/callback.c:48-69 | head, tail and end of the list after a deletion |
| `CallbackQueue.Keep` | ext/TortoisePlink/callback.c:57-62 | a surviving node is put behind the others |
| `CallbackQueue.StepInOrder` | ext/TortoisePlink/callback.c:36-128 | every single call keeps the order |
| `CallbackQueue.StepFlagsRight` | ext/TortoisePlink/callback.c:29-128 | every single call keeps the meaning of the flags |
| `SessionLog.PutInPieces` | ext/TortoisePlink/logging.c:48-54 | writing in pieces is writing the whole, even onto a disk that fills up on the way |
| `SessionLog.LogContext.LogWrite` | ext/TortoisePlink/logging.c:35-56 | opens at the first write, then queues, writes or ignores |
| `SessionLog.LogContext.LogFOpenCallback` | ext/TortoisePlink/logging.c:90-151 | opens the file in its mode, writes the header and then the queue, which ends empty |
| `SessionLog.LogContext.FlushQueue` | ext/TortoisePlink/logging.c:140-150 | the loop over chunks writes what writing the whole queue would |
| `SessionLog.LogContext.LogFOpen` | ext/TortoisePlink/logging.c:158-194 | decides the mode, or waits for the answer |
| `SessionLog.LogContext.Perform` | ext/TortoisePlink/logging.c:35-194 | any run of writes and answers does what the state machine says |
| `SessionLog.LogIsInOrder` | ext/TortoisePlink/logging.c:35-194 | at every point the file is what was there before, the header, and all the bytes given, in order, or a prefix on a full disk; bytes wait only while the answer is pending; logging fails exactly for the stated reasons |
| `SessionLog.TimingDoesNotMatter` | ext/TortoisePlink/logging.c:144-194 | whether the file is opened at once or later makes no difference to what ends up in it |
| `SessionLog.LogContext.WriteOut` | ext/TortoisePlink/logging.c:45-55 | queued, written, or ignored; a short write disables the log |
| `SessionLog.LogContext.LogFClose` | ext/TortoisePlink/logging.c:196-203 | the log is closed |
| `SessionLog.OldLogIsKeptOrNot` | ext/TortoisePlink/logging.c:90-194 | an old log is replaced, or kept in front of the new text, or left alone, as the settings say or as the user answers, at once or later; until then it is as it was |
| `HexDump.CursorFinds` | ext/TortoisePlink/logging.c:338-348 | the cursor that only moves forward finds the same mode as a search of all the areas |
| `HexDump.ModeOfArea` | ext/TortoisePlink/logging.c:342-348 | the mode of a byte is that of the one area that holds it |
| `HexDump.DumpIsFaithful` | ext/TortoisePlink/logging.c:335-398 | the lines, expanded, are the packet: every byte once, shown, blanked, or counted as omitted |
| `HexDump.DumpIsPlaced` | ext/TortoisePlink/logging.c:335-398 | each row starts at its own column and stays in its sixteen; omitted runs are maximal and have their exact lengths |
| `HexDump.DumpDetermines` | ext/TortoisePlink/logging.c:361-398 | the text determines the packet, down to each byte that is neither blanked nor omitted |
| `HexDump.SameDumpSamePacket` | ext/TortoisePlink/logging.c:335-398 | the same, in terms of packets and their areas |
| `HexDump.PutCell` | ext/TortoisePlink/logging.c:376-379 | the three buffer writes for a byte, in bounds, change its own columns only |
| `HexDump.EndRow` | ext/TortoisePlink/logging.c:387-389 | what is logged is the row up to its last byte |
| `HexDump.LogPacket` | ext/TortoisePlink/logging.c:335-398 | the loop, with its row buffer, cursor and omission count, logs exactly the specified lines |
| `HexDump.InitRow` | ext/TortoisePlink/logging.c:358-362 | the row buffer shows the offset and blanks |
| `HexDump.Advance` | ext/TortoisePlink/logging.c:338-348 | moves the cursor and finds the mode of the byte |
| `HexDump.EndOmission` | ext/TortoisePlink/logging.c:350-356 | one line with the exact number of bytes omitted |
| `HexDump.AddToRow` | ext/TortoisePlink/logging.c:367-380 | the byte joins the pending row |
| `HexDump.FlushRow` | ext/TortoisePlink/logging.c:384-391 | the pending row becomes a line |
| `HexDump.TakeByte` | ext/TortoisePlink/logging.c:364-391 | one byte is omitted or joins the row, and the row is flushed when it must be |
| `HexDump.FromAsciz` | ext/TortoisePlink/logging.c:388 | what is logged ends at the first NUL |
| `HexDump.TextInjective` | ext/TortoisePlink/logging.c:353-387 | different lines have different texts |
| `AnchorLayout.SameSizeSamePlace` | ext/ResizableLib/ResizableLayout.cpp:78-92 | a parent of the size it had when the anchor was added puts the child exactly where it was |
| `AnchorLayout.SizeComesBack` | ext/ResizableLib/ResizableLayout.cpp:712-734 | a child asked for a size gets it or one pixel less, and the latter exactly under a condition on the remainders |
| `AnchorLayout.MarginsSuffice` | ext/ResizableLib/ResizableLayout.cpp:712-734 | in both directions: a parent as large as the child plus its margins gives the child its size, or a pixel less |
| `AnchorLayout.SizeComesBackExactly` | ext/ResizableLib/ResizableLayout.cpp:720-731 | nothing is lost by a child anchored to both sides |
| `AnchorLayout.PixelLost` | ext/ResizableLib/ResizableLayout.cpp:720-731 | a pixel can be lost |
| `AnchorLayout.Layout.AddAnchor` | ext/ResizableLib/ResizableLayout.cpp:60-112 | list and map grow together, and the child is where its margins put it |
| `AnchorLayout.Layout.ArrangeLayout` | ext/ResizableLib/ResizableLayout.cpp:188-248 | every anchored child goes to its position, also those that are skipped because they need not move |
| `AnchorLayout.Layout.ResizeBack` | ext/ResizableLib/ResizableLayout.cpp:188-248 | no drift: after any number of resizes back to the first size, every child is where it was |
| `AnchorLayout.Layout.GetAnchorMargins` | ext/ResizableLib/ResizableLayout.cpp:712-734 | the four margins, for anchors in either order, or a refusal for a window without anchor |
| `AnchorLayout.Layout.Resize` | ext/ResizableLib/ResizableLayout.cpp:188-248 | after a resize every anchored child is where its margins put it |
| `AnchorLayout.QuotientTruncates` | ext/ResizableLib/ResizableLayout.cpp:86-93 | the remainder of a division has the sign of the dividend and is smaller than the divisor |
| `AnchorLayout.EdgesKeepTheirDistance` | ext/ResizableLib/ResizableLayout.cpp:78-112 | wherever the parent goes and however it is resized, each edge of the child stays as far from its anchor point as it was |
| `OpensshPemFiles.ReadOfEncrypted` | ext/TortoisePlink/import.c:551-800 | a key encrypted with triple DES or with AES-128-CBC, under the MD5 of passphrase and iv, reads back with that passphrase, for any iv, padding, line width and case of the hex digits |
| `OpensshPemFiles.WrittenFile` | ext/TortoisePlink/import.c:1003-1087 | with a passphrase the file is such a one: 1 to 8 bytes of padding that say how many they are, and triple DES |
| `OpensshPemFiles.RsaContents` | ext/TortoisePlink/import.c:836-891 | the integers are those of RSAPrivateKey (section A.1.2 of RFC 8017), in its order, behind a version 0 |
| `OpensshPemFiles.EcdsaContents` | ext/TortoisePlink/import.c:943-1001 | the elements are those of ECPrivateKey (section 3 of RFC 5915), tag by tag |
| `OpensshPemFiles.OtherHeaderIsIgnored` | ext/TortoisePlink/import.c:405-442 | a header line that is neither Proc-Type nor DEK-Info makes no difference, wherever it stands among the headers |
| `OpensshPemFiles.ProcTypeOf` | ext/TortoisePlink/import.c:407-414 | a Proc-Type is refused unless it starts with 4, and only 4,ENCRYPTED means anything |
| `OpensshPemFiles.OtherCipherIsRefused` | ext/TortoisePlink/import.c:415-427 | a cipher of another name is refused |
| `OpensshPemFiles.OtherIvIsRefused` | ext/TortoisePlink/import.c:429-441 | an iv of any other length is refused, and so is one with a pair that does not start with a hex digit |
| `OpensshPemFiles.FirstLineDecides` | ext/TortoisePlink/import.c:357-380 | the first line says which kind of key it is, or that it is a new-style key, an unknown one, or none |
| `OpensshPemFiles.FirstLineIsRefused` | ext/TortoisePlink/import.c:357-380 | a file whose first line is none of the three is refused with that answer, whatever follows |
| `OpensshPemAnswers.SequenceIsExpected` | ext/TortoisePlink/import.c:614-634 | what has been decrypted must be a SEQUENCE, and then the file is read if and only if its contents are |
| `OpensshPemAnswers.IntegersAreRead` | ext/TortoisePlink/import.c:629-735 | RSA and DSA keys are nine and six INTEGERs, the first of them 0, and anything else is refused with its own answer |
| `OpensshPemAnswers.EcdsaIsRead` | ext/TortoisePlink/import.c:638-699 | an ECDSA key is an INTEGER 1, an OCTET STRING and two elements around the OID of a curve and a point of its length, and anything else is refused with its own answer |
| `OpensshPemAnswers.EveryKeyIsCanonical` | ext/TortoisePlink/import.c:629-770 | whatever the file, a key that is read has the type of the BEGIN line, canonical integers and a point of its curve |
| `OpensshPemAnswers.WhenThePassphraseIsBlamed` | ext/TortoisePlink/import.c:614-770 | the passphrase is blamed exactly when an encrypted file, once decrypted, is not the ASN.1 it should be |
| `OpensshNewFiles.ReadOfContainer` | ext/TortoisePlink/import.c:1320-1492 | for each of the three ciphers, either key derivation, any salt and any number of rounds: the container reads back as key and comment if and only if the check integers agree and the padding counts up from 1, and otherwise the answer says which failed |
| `OpensshNewFiles.ContainerIsRefused` | ext/TortoisePlink/import.c:1260-1377 | any number of keys but one is refused, and a ciphertext that is not whole blocks |
| `OpensshNewFiles.ContainerOfStrings` | ext/TortoisePlink/import.c:1191-1280 | magic, cipher, derivation, options and key count: the first that is wrong decides the answer, and nothing else does |
| `OpensshNewFiles.OptionsAreParsed` | ext/TortoisePlink/import.c:1233-1245 | bcrypt options are accepted if and only if they start with a string and a number |
| `OpensshNewFiles.UnknownAlgorithmIsRefused` | ext/TortoisePlink/import.c:1414-1422 | a key of an unknown algorithm is refused |
| `OpensshNewFiles.WrittenFile` | ext/TortoisePlink/import.c:1525-1619 | the writer's files are such containers: aes256-ctr under bcrypt with 16 rounds, or neither, and 1 to 16 bytes of padding |
| `OpensshNewAnswers.BodyIsPresent` | ext/TortoisePlink/import.c:1135-1189 | a body is only taken from behind the right first line, and it is not empty |
| `OpensshNewAnswers.MissingCipher` | ext/TortoisePlink/import.c:1191-1211 | a file that ends before the cipher is refused for that |
| `OpensshNewAnswers.MissingFields` | ext/TortoisePlink/import.c:1213-1280 | and so is one that ends before the derivation, the number of keys, or the private part |
| `OpensshNewAnswers.SectionIsAnswered` | ext/TortoisePlink/import.c:1399-1474 | in the decrypted part the first thing that is wrong decides the answer: the check integers, the algorithm, its blob, the comment, the padding |
| `SshComFiles.FieldIsRead` | ext/TortoisePlink/import.c:1767-1821 | a header is read as its name and value, wherever it is folded and whatever the spaces behind the colon |
| `SshComFiles.LoadOfFields` | ext/TortoisePlink/import.c:1741-1859 | the comment is the value of the last header of the name Comment, without one pair of quotes, cut at 255 characters |
| `SshComFiles.OtherHeaderIsIgnored` | ext/TortoisePlink/import.c:1800 | a header of another name may be put anywhere among the others and makes no difference |
| `SshComFiles.ReadOfComFile` | ext/TortoisePlink/import.c:1945-2144 | a key reads back from a file with any headers, any type string of its kind, any total length, any padding and lines of any width, encrypted or not |
| `SshComFiles.WrittenFile` | ext/TortoisePlink/import.c:2146-2322 | the writer's files are such files; an ECDSA key has none |
| `SshComFiles.CommentHeaderIsValid` | ext/TortoisePlink/import.c:2292-2308 | the folded comment is a header of that name whose value is the comment in quotes |
| `SshComAnswers.PayloadIsRead` | ext/TortoisePlink/import.c:2069-2119 | an RSA payload is accepted if and only if it is six integers, a DSA payload if and only if it is a zero and five |
| `SshComAnswers.ContainerIsRead` | ext/TortoisePlink/import.c:2053-2062 | around it there must be a string, and what follows that is not looked at |
| `SshComAnswers.BodyIsPresent` | ext/TortoisePlink/import.c:1741-1859 | a body is only taken from behind the right first line, and it is not empty |
| `SshComAnswers.EveryKeyIsCanonical` | ext/TortoisePlink/import.c:2069-2119 | whatever the file, a key that is read is RSA or DSA with canonical integers |
| `SshComAnswers.WhenThePassphraseIsBlamed` | ext/TortoisePlink/import.c:2042-2119 | the passphrase is blamed exactly when an encrypted blob, once decrypted, is not what it should be |
| `SshComAnswers.WhatIsRefused` | ext/TortoisePlink/import.c:1963-2028 | magic, type, cipher, ciphertext and its block size: the first that is wrong decides the answer |
| `LineKeys.BackspaceTakesBack` | ext/TortoisePlink/ldisc.c:415-424 | quoting the bytes of any one character and then pressing backspace or delete leaves line and session as they were |
| `LineKeys.WordIsKilled` | ext/TortoisePlink/ldisc.c:425-435 | ^W leaves the longest proper prefix that is empty or has a word starting behind it, and sends nothing |
| `LineKeys.LineIsKilledOrShown` | ext/TortoisePlink/ldisc.c:436-469 | ^U empties the line, ^R leaves it, and neither sends anything |
| `LineKeys.OrdinaryIsEntered` | ext/TortoisePlink/ldisc.c:524-533 | every key that is not one of eleven, or ^J behind a CR in a raw session, appends its byte |
| `LineKeys.QuotedKey` | ext/TortoisePlink/ldisc.c:470-472 | whatever key follows ^V is entered |
| `LineKeys.LogoutSends` | ext/TortoisePlink/ldisc.c:473-480 | ^D sends exactly the line, or the end of file if there is none |
| `LineKeys.InterruptSends` | ext/TortoisePlink/ldisc.c:445-461 | ^C, ^Z and ^\\ give up the line with SS_EL and send SS_IP, SS_SUSP or SS_ABORT, or become the only character if these keys are off |
| `LineKeys.EnterSends` | ext/TortoisePlink/ldisc.c:511-523 | Enter sends the line and then CR LF, the end-of-line special, or CR, as the protocol has it |
| `LineKeys.LineFeedSends` | ext/TortoisePlink/ldisc.c:501-523 | in a raw session ^J behind a literal CR does the same for the line before it |
| `LineKeys.PasteSendsLines` | ext/TortoisePlink/ldisc.c:390-534 | a pasted text is sent line by line, each with its end, and what follows the last CR stays in the line |
| `LineKeys.NothingIsEchoed` | ext/TortoisePlink/ldisc.c:394-534 | without echo no key writes anything |
| `PoLayout.FileIsRead` | contrib/Utils/po-merge.cs:66-162 | a file of lines and entries, in any layout, is read as its entries: msgid and msgstr are their pieces in a row, a header's lines apart, and a later entry counts before an earlier one |
| `PoLayout.AcceptedIffLaidOut` | contrib/Utils/po-merge.cs:66-162 | ParseTranslation accepts a file if and only if it is laid out in this way |
| `PoLayout.ParseReportsFault` | contrib/Utils/po-merge.cs:92-158 | the first of six kinds of fault decides the error, whatever entries come before it |
| `PoLayout.MergeTakesOrReports` | contrib/Utils/po-merge.cs:167-299 | UpdateTranslation accepts each such file that is not indented, and reports the same faults |
| `PoLayout.TrimTakes` | contrib/Utils/po-merge.cs:84 | trimming takes away the white space at both ends and nothing else |
| `PoDocument.MergeIsEdit` | contrib/Utils/po-merge.cs:167-299 | what is written is the old file with its translations replaced and the header's fuzzy mark blanked, every other line in its place, and it reads back as that |
| `PoDocument.CountsAreRight` | contrib/Utils/po-merge.cs:256-293 | total counts the messages, untranslated those whose translation in the output is empty, translated the others, and updated those whose translation in the output is not the old one |
| `ControlBoxRuns.TitleIsPlaced` | ext/TortoisePlink/dialog.c:128-148 | a title goes in front of all the sets of its path, or behind those that share the most with it if there are none |
| `ControlBoxRuns.SetIsPlaced` | ext/TortoisePlink/dialog.c:150-177 | a named set that is there is left as it is; a new one goes behind all the sets of its path, or behind those that share the most with it |
| `ControlBoxRuns.BoxHoldsWhatWasAsked` | ext/TortoisePlink/dialog.c:128-177 | after any calls the box holds one set for each path and name asked for, with the title of the first such call, one for each title that was set, and nothing else |
| `CallbackHistory.CallbackIsAccountedFor` | ext/TortoisePlink/callback.c:29-128 | every callback that was queued runs or waits as what it was queued as, if and only if no later call named its context, or the idempotent callback itself, while it waited |
| `CallbackHistory.AskedForWaits` | ext/TortoisePlink/callback.c:36-70 | an idempotent callback that is asked for waits, if and only if no call ever deleted an entry of it |
| `CallbackHistory.NotifiesIfWanted` | ext/TortoisePlink/callback.c:22-27 | whether the front end is notified is what it last asked for |
| `HexDumpShown.ByteIsSeen` | ext/TortoisePlink/logging.c:353-391 | each byte that is not left out is seen in the row of its offset, in the columns of its place: in hexadecimal and as a character, or as XX and X |
| `HexDumpShown.RunIsCounted` | ext/TortoisePlink/logging.c:350-398 | each longest run of bytes that are left out has a line with its length |

## Left out

- Cryptography, bignums and key validation: MD5, DES, AES, bcrypt and reduction modulo p - 1 are arbitrary functions, and ssh_key_new_priv just stores its two blobs; what an algorithm checks of the numbers of a key, and which strings are points of a curve, are parameters.
- Ber.PutBerIdLen: C shifts are mathematical divisions, so a shift by the width of an int, which C leaves undefined for very large identifiers and lengths, is not modelled.
- Ber.ReadBer: an identifier that overflows an int, which C leaves undefined, is read as an unbounded number.
- Ber.ReadId: the same.
- OpensshPemImport.LoadKey: the loop as written may run for ever; the method gives up, with NoAnswer, once it has taken more turns than the text has characters, and EndOfData.PemAnswersIff proves that the loop never ends then. A file with Proc-Type but no DEK-Info, for which the source reads an uninitialised cipher, is read as AES.
- OpensshNewImport.LoadBlobLines: gives up in the same way (EndOfData.NewAnswersIff).
- SshComImport.LoadKey: gives up in the same way (EndOfData.SshComAnswersIff).
- OpensshPemImport.ReadKey: gives up with the loader it calls.
- OpensshNewImport.ReadKey: gives up with the loader it calls.
- SshComImport.ReadKey: gives up with the loader it calls.
- OpensshPemImport.ParseIv: the blanks, signs and single last digit that sscanf takes in a malformed iv are refused, since what sscanf makes of them (and of "0x") is up to the C library.
- OpensshPemImport.ProcessHeader: the same strictness about a malformed iv.
- OpensshPemImport.ProcessLine: the same strictness about a malformed iv.
- OpensshPemRoundTrip.ReadOfFile: integers of up to 2^24 bytes, because the source counts bytes and bits in ints; the same holds for the other round trips.
- OpensshNewRoundTrip.ReadOfFile: the blob inside the container is any self-delimiting one, proved so for RSA, DSA and ECDSA; EdDSA keys are not spelled out.
- The automatic choice between the two OpenSSH formats, import of SSH-1 keys, file access and the wiping of memory.
- Bufchain.Chain.Add: the granules are a sequence of byte sequences rather than a linked list, and the callback of a chain is not called.
- LineEditor.Editor.InsertByte: in UTF-8 mode, a continuation byte that starts the line or follows a space: it continues nothing, terminals differ in what they show, and the loop of ldisc.c lines 417-422 has no defined end on a line of such bytes alone.
- LineEditor.Editor.HandleKey: the same bytes.
- LineEditor.Editor.Send: in UTF-8 mode a continuation byte follows a visible byte, in the data or in the buffer; echo, editing and character set stay the same during a run; the branch of ldisc_send without local editing, long lines that wrap, and combining or double-width characters are not modelled.
- InputQueue.Ldisc.Flush: input that arrives between the moment the session becomes willing and the flush, for which the source promises no order.
- PoMergeTool.UpdateTranslation: an exception leaves a part of the output file behind, which the model does not show; StartsWith is taken to compare character by character.
- ControlBox.Box.GetSet: the controls within a set, and paths so long that an int cannot count their elements.
- CallbackQueue.Callbacks.Perform: a callback is its begin, the calls it makes, and its end; running callbacks from within a callback is not modelled, since the source promises no order there.
- SessionLog.LogContext.LogFOpenCallback: event messages, flushing, reconfiguration and the substitution of codes in the file name.
- HexDump.LogPacket: the header line of a packet; packets of at most 2^32 bytes, so that the offset has eight digits.
- AnchorLayout.Layout.ArrangeLayout: callbacks for placeholders, clipping, refreshing, and window handles that are not valid; coordinates are unbounded.
- AnchorLayout.Layout.GetAnchorMargins: anchors that coincide in a direction, for which the source divides by zero.
- The rest of the repository: user interface, option tables, external tools and scripts.
