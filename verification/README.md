# ClipShare desktop client: a verified model

ClipShare shares text, files and images between machines over a small binary protocol. This project models the
desktop client's protocol code, the parts of its file handling and clipboard handling that the protocol relies on, and
the mock server that plays the other side, and proves what they promise. The model keeps the source's shape: a
socket, a file system, an X server, lists and buffers are objects whose methods change them, loops are loops, and each
method is proved against a specification whose own properties are lemmas.

- **Transport** (`Bytes`, `Numerals`, `Wire`, `NetUtils`, `Acks`). A `Socket` delivers and takes bytes by a schedule that decides at
  every call whether it moves any number of bytes, makes no progress, or breaks; every statement is for all schedules.
  A ghost log records each operation, and `Session` says as a state machine where a client may be after a log.
- **Files** (`Trees`, `Paths`, `FileSystems`, `Mkdirs`). A tree of files and directories with path strings that are
  resolved component by component; any single operation may be refused.
- **Receiving** (`ReceivedNames`, `SaveFiles`, `TempTrees`, `ReceiveFiles`, `Renames`, `GetFiles`): names, files, the
  temp directory, and the whole Get Files run.
- **Sending** (`Flatten`, `SendFiles`), the framing in between (`Framing`), and the way there and back (`Forest`,
  `RoundTrip`, `EndToEnd`).
- **Sessions**: the other methods (`TextMethods`, `ImageMethods`), the version range, negotiation and dispatch
  (`Selector`), what holds of every run (`SessionLaws`), and the client together with the mock server under every
  interleaving (`MockServer`, `Duality`, `Exchanges`, `SendExchanges`, `NoDeadlock`, `Negotiation`). The last group
  shows confluence of the two ends once, so that each exchange has to be followed in one order only.
- **Clipboard** (`Xclib`, `Incr`, `Xclip`): the selection owner and requestor over one property and two event queues,
  with the INCR mechanism of section 2.7.2 of the ICCCM. (`Eol`, `UrlCodec`, `ClipboardFiles`): the in-place
  conversions, percent-encoding after section 2.1 of RFC 3986, and the cut-files list (`CutLists`, `CopiedLists`).
- **Scanning** (`AddressOrder`, `SwapRemove`, `Sweeps`, `Addresses`): lists filtered by swapping with the last entry.

Three promises do not hold as one might expect, and the model says exactly when they do; each comes with a concrete
input that fails. Converting to LF twice is the same as once exactly when no CR CR LF occurs (`Eol.LfTwice`). The
duplicate pass over sorted addresses removes all duplicates exactly when the list peels (`Sweeps.SweepDistinct`). The
selection owner's loop returns only after a SelectionClear of the same call exactly when its static `clear` flag is
not set on entry (`Xclip.WaitsUnlessCleared`); nothing resets it, so later calls in a process serve at most one
request. The mock server's list of disabled methods is compared as text with a number, so it never has an effect; the
model follows the code.

## Model

| member | source | states |
|---|---|---|
| Wire.SizeRoundTrip | src/utils/net_utils.c:500-524 | every signed 64-bit size is read back as it was sent; the mock server reads 0 .. 2^32 - 1 and the directory mark -1 correctly too |
| Wire.SizeBytesRoundTrip | src/utils/net_utils.c:500-524 | every eight bytes are the encoding of the size they are read as |
| Wire.SizeWritten | src/utils/net_utils.c:500-508 | a size is written as eight bytes that spell it in base 256, the most significant first; a negative one as itself plus 2^64 |
| Wire.SizeRead | tests/utils/mock_server.py:73-78 | the client takes off 2^64 from 2^63 on, the mock server from 2^32 on |
| Session.WireNumbers | src/proto/selector.h:27-34 | the bytes that stand for methods, answers and the acknowledgement |
| Wire.ServerIntLimit | tests/utils/mock_server.py:69-78 | the mock server reads a size correctly if and only if it is below 2^32 |
| NetUtils.Socket.Recv | src/utils/net_utils.c:345-387 | one receive call appends the next bytes of the stream, makes no progress, or is fatal (broken, or at the end of the stream) |
| NetUtils.Socket.Fill | src/utils/net_utils.c:389-421 | the read loop ends for every transport after at most 11 * size + 1 calls, always holds a prefix of the stream, succeeds iff exactly size bytes moved, and on a delivering transport fails only when the stream is too short |
| NetUtils.Socket.ReadSock | src/utils/net_utils.c:389-421 | the buffer holds exactly what was consumed, and the session log records a full or a cut read |
| NetUtils.Socket.Send | src/utils/net_utils.c:423-464 | one send call takes a prefix of what is offered, nothing, or is fatal |
| NetUtils.Socket.Drain | src/utils/net_utils.c:466-498 | the write loop ends after at most 11 * size + 1 calls; the peer gets a prefix, all of it iff it succeeds |
| NetUtils.Socket.WriteSock | src/utils/net_utils.c:466-498 | on success the stream grew by the whole buffer, otherwise by a shorter prefix |
| NetUtils.Socket.SendSize | src/utils/net_utils.c:500-508 | filling the bytes from the last one down gives the big-endian two's complement encoding |
| NetUtils.Socket.ReadSize | src/utils/net_utils.c:510-524 | the value read is the decoding of the eight bytes consumed |
| NetUtils.JoinBytes | src/utils/net_utils.c:510-524 | shifting the bytes into a signed 64-bit value gives their two's complement value |
| NetUtils.Socket.CloseSocket | src/utils/net_utils.c:526-558 | closing a closed socket does nothing; otherwise it is closed once and nothing else changes |
| Acks.SendAck | src/proto/methods.c:873-882 | exactly one byte 1 is written on success and nothing on failure |
| Acks.ReadAck | src/proto/methods.c:859-871 | at most one byte is consumed; success iff it came and was 1 |
| SessionLaws.Typestate | src/utils/net_utils.c:526-558 | on every run of the session automaton no read, write or second close follows the close, and the final state tells whether there was one |
| SessionLaws.ConsumedSoFar | src/proto/methods.c:146-200 | in every state of every run, what was received since the grant is exactly the part of the announced payload that the state stands for |
| SessionLaws.AckDiscipline | src/proto/methods.c:501-516 | an acknowledgement is written only in version 4, after a whole acceptable payload and no failed step, and only the close can follow it |
| Framing.AcknowledgedWhole | src/proto/methods.c:785-795 | whatever version 4 acknowledges, the bytes since the grant are exactly what a server encodes within the limits: a text, a counted list of files and directories, or an image after its grant |
| SessionLaws.AckIsLast | src/proto/methods.c:755-795 | the acknowledgement is the last byte written and is written at most once per run |
| SessionLaws.SuccessIsAcknowledged | src/proto/methods.c:785-795 | a version 4 request for data that ended well attempted the acknowledgement right before the close, after one whole payload |
| TextMethods.ReadBlock | src/proto/methods.c:544-577 | the block is exactly the announced bytes when the length is in 1 .. max_text_length, and nothing otherwise |
| TextMethods.TextIs | src/proto/methods.c:146-180 | a stream begins with an acceptable text d iff it begins with the size of d and d, which has 1 to max_text_length bytes and is UTF-8 |
| TextMethods.LineEndsOnly | src/utils/utils.c:365-399 | pasting and sending change line ends only: a text without CR CR LF is left without CR LF, and one without CR is left as it is up to its NUL |
| TextMethods.Paste | src/utils/utils.c:365-399 | the text handed to the clipboard is the LF form of the received text up to a NUL, or nothing when that is empty |
| TextMethods.GetTextCommon | src/proto/methods.c:146-203 | accepted iff the whole announced block came and is UTF-8; only then the version 4 acknowledgement is written, and nothing else; the socket is closed on success; the text for the clipboard is its pasted form, if anything is left of it |
| TextMethods.SendTextData | src/proto/methods.c:44-58 | the stream grows by length and text, and the session waits for the acknowledgement or is over |
| TextMethods.SendTextCommon | src/proto/methods.c:97-144 | what is sent is the LF form of a clipboard text of 1 to max_text_length bytes, up to a NUL, when that is not empty; otherwise nothing is written |
| TextMethods.InfoV1 | src/proto/methods.c:584-598 | succeeds iff the block is UTF-8 and is "clip_share", or that and a NUL and anything; the socket is closed in every case and nothing is written |
| TextMethods.InfoV4 | src/proto/methods.c:908-931 | accepted iff the block is UTF-8 and is "clip_share", or that, a NUL or line end, and anything; the acknowledgement is written iff it is accepted, and the socket is closed iff that worked |
| TextMethods.InfoIs | src/proto/methods.c:584-598 | the same of streams: the bytes that make an acceptable server name in each version |
| ImageMethods.SetFilename | src/proto/methods.c:488-499 | the name is nine digits 0-9, a-v that spell the time in base 32, and ".png" |
| ImageMethods.ImageNames | src/proto/methods.c:488-502 | different times give different names, each a proper file name that does not start with a dot |
| ImageMethods.SaveImageCommon | src/proto/methods.c:501-540 | only the file of that name changes and on success it holds the announced bytes; unless the system refuses to remove it, no part of an image stays after a failure; acknowledged on success only; closed in every case |
| ImageMethods.SelectDisplay | src/proto/methods.c:818-834 | goes on iff the server granted the display number that was sent |
| ImageMethods.GetScreenshotCommon | src/proto/methods.c:817-837 | an image is saved only after the grant of the display; without it no file changes |
| SaveFiles.SaveFileCommon | src/proto/methods.c:379-437 | only the named place changes; on success it holds exactly the announced bytes (or is a directory) and exactly those bytes were consumed; without outside failures it succeeds iff the stream holds an acceptable payload; unless the system refuses something, a failure leaves the tree as it was, or without the file that had been emptied |
| SaveFiles.PayloadIs | src/proto/methods.c:379-437 | a payload is a file iff the stream begins with its size and its bytes and the size is allowed, and a directory iff it begins with -1 and the version is 3 or 4 |
| SaveFiles.SaveData | src/proto/methods.c:407-437 | the 64 KiB loop stores exactly the announced bytes; a file that could not be finished is removed, unless the system refuses that |
| SaveFiles.Discard | src/proto/methods.c:416-428 | unless the system refuses it, removing the begun file leaves the tree without it, and otherwise as it was before the file was opened |
| SaveFiles.SaveDirectory | src/proto/methods.c:394-397 | an announced directory is made empty at its place, nothing else changes |
| Paths.BadPathIff | src/proto/methods.c:652-653 | the search for "/../" finds exactly the parent steps that stand between two separators |
| Mkdirs.MkdirCheck | src/utils/utils.c:532-556 | an existing directory is fine, an existing file is not, anything else is made |
| Mkdirs.Mkdirs | src/utils/utils.c:558-588 | on success every directory on the path exists and nothing else changed; on failure only a leading part of them was made |
| ReceivedNames.IsValidName | src/proto/methods.c:439-451 | accepts exactly UTF-8 names that do not begin with a NUL and have no byte below 32 before their first NUL |
| ReceivedNames.CleanedNameIs | src/proto/methods.c:615-650 | the name is used up to its first NUL and without one separator at its end; in version 1 only what follows the last separator of that |
| ReceivedNames.Confinement | src/proto/methods.c:615-665 | whatever bytes arrive as a name, an accepted one is a place strictly inside the temp directory with only proper names on the way, and in version 1 a direct child |
| ReceivedNames.RefusedNames | src/proto/methods.c:652-662 | names with a parent step anywhere, also at the end, and names ending in "." or only separators are refused, and no others |
| ReceiveFiles.GetBaseName | src/proto/methods.c:464-476 | the overlapping move leaves the part after the last separator |
| ReceiveFiles.CheckName | src/proto/methods.c:615-653 | the edited name buffer holds the cleaned name, or the name is refused for exactly the stated reasons |
| ReceiveFiles.MakeDirectories | src/proto/methods.c:600-613 | the parent directories of the new path are made inside the temp directory, nothing else |
| ReceiveFiles.ValidateAndSave | src/proto/methods.c:615-665 | nothing changes outside the temp directory; on success its entries grew by exactly the announced leaf, and never by replacing one; unless the system refuses something, a failure leaves no partial file, only directories on the way to the place |
| ReceiveFiles.SaveFile | src/proto/methods.c:667-694 | one whole entry of the stream is consumed and stored, or refused for exactly the specified reasons |
| ReceiveFiles.SaveAll | src/proto/methods.c:755-759 | count entries are received exactly as specified, whatever the fragment sizes |
| Renames.FreeName | src/proto/methods.c:708-725 | the name found is the first choice when that is free, otherwise the decimal numeral of the least free number, an underscore and the name; none is found exactly when the first choice and all 999999 numbered names are taken |
| Renames.NameRule | src/proto/methods.c:708-725 | the rule by which names are chosen, spelled out: the name itself, "1_" and the name for a forbidden clipshare-desktop.conf, and "<number>_<name>" with the least free number up to 999999 |
| Renames.OneName | src/proto/methods.c:708-725 | this rule gives every entry one name at most, and one exactly when not all are taken |
| Renames.NeverConfig | src/proto/methods.c:709-715 | without a configured working directory no entry is ever named clipshare-desktop.conf |
| Renames.CheckAndRename | src/proto/methods.c:696-734 | the entry moves to its new name with its content unchanged, or nothing changes |
| Renames.ManyNames | src/proto/methods.c:717-725 | if n numbered alternatives of a name are taken, at least n names are |
| GetFiles.MakeTempDir | src/proto/methods.c:746-753 | the temp directory is new, empty, and named by the hexadecimal numeral of the first candidate whose numeral names nothing |
| GetFiles.HexSpelled | src/proto/methods.c:746-751 | the text of a candidate is its hexadecimal numeral with lower-case digits and no leading zero |
| GetFiles.MoveAll | src/proto/methods.c:773-781 | every entry is moved at most once, in the listed order, each under the name the rule gives it at that moment; when nothing is refused and there is room, exactly the entries with an allowed name move, so a failure for one does not stop the others; it succeeds only if every entry in turn has a new name, and always then when nothing is refused |
| GetFiles.MoveOut | src/proto/methods.c:764-783 | when all entries moved, the temp directory is gone and the working directory is the old one plus the moved entries, each under the name the rule gives it |
| GetFiles.NamesKept | src/proto/methods.c:696-734 | every received entry keeps its name if and only if none of the names was taken, by the temp directory neither, and none is a forbidden clipshare-desktop.conf; the working directory then gains exactly what was received |
| GetFiles.Finish | src/proto/methods.c:760-795 | the socket is closed before the move in versions 1 to 3 and after the acknowledgement in version 4; success means that all entries moved and the temp directory is gone |
| GetFiles.GetFilesDirs | src/proto/methods.c:736-803 | for all server bytes, transports and refusals: nothing that existed is lost or changed, the configuration file is not created, on success every received top-level entry is there exactly once under the name the rule gives it and the temp directory is gone; without outside failures it succeeds iff a candidate for the temp directory is free, the stream is acceptable with the first such one, and every received entry in turn has a new name and none too long |
| GetFiles.PromisingIsReceivable | src/proto/methods.c:736-803 | an acceptable stream and short names are enough for that when working directory and stream have fewer than 999998 entries together |
| GetFiles.NothingLostAnywhere | src/proto/methods.c:736-803 | after any run every path that existed, anywhere in the tree, still exists, and every file keeps its bytes |
| SendFiles.SendData | src/proto/methods.c:44-58 | on success the stream grew by the length and the data, otherwise by a shorter prefix of them |
| SendFiles.SendBlocks | src/proto/methods.c:242-254 | the 64 KiB loop sends exactly the file's bytes, or a shorter prefix of them |
| SendFiles.TransferRegularFile | src/proto/methods.c:213-255 | sends name, size and bytes of a readable file of allowed size, and nothing of any other; a broken transfer leaves a part of the entry on the way, never all of it |
| SendFiles.TransferDirectory | src/proto/methods.c:257-269 | sends the name and the directory mark |
| SendFiles.TransferSingleFile | src/proto/methods.c:271-326 | sends the listed path as the entry it stands for, under the base name in version 1 and the path below the common parent later; nothing of a path that cannot be sent |
| SendFiles.ItemIs | src/proto/methods.c:271-326 | what a path is sent as: under its last component in version 1 and what follows the parent later, 1 to 2048 bytes; a directory if that ends in a separator, otherwise a file whose size fits both limits |
| SendFiles.SendItems | src/proto/methods.c:352-365 | the entries go out whole and in order, up to the first that cannot be sent; of the one at which the transport breaks a part |
| SendFiles.SendList | src/proto/methods.c:345-365 | count and entries; version 1 sends no count and one entry; a failure leaves a part of the count, or all of it and the entries before the one at which it stopped |
| SendFiles.SendFilesCommon | src/proto/methods.c:328-377 | on success the stream grew by exactly the encoded transfer and the socket is closed; a failure leaves only a beginning of it, up to or into the entry at which it stopped; without outside failures it succeeds iff the list is acceptable and every entry can be sent |
| SendFiles.ListIs | src/proto/methods.c:328-350 | a list is sent iff it has 1 to 2^32 - 2 entries and, in an automatic send, at most the limit for those; version 1 sends its first entry |
| Framing.TransferRoundTrip | src/proto/methods.c:345-365 | for every list of files and directories, what version 2 and later write is parsed back as the same list in the same order, using exactly the bytes written |
| Framing.TransferInjective | src/proto/methods.c:328-365 | different lists are written as different bytes |
| Framing.ReceiveIsAccept | src/proto/methods.c:667-694 | for every stream, receiving an entry is parsing it and storing the parsed entry |
| Framing.ReceiveIsAcceptAll | src/proto/methods.c:755-759 | for every stream and count, receiving is parsing all entries and storing them in order; a stream that does not parse is refused |
| Flatten.ProcessPath | src/utils/utils.c:653-661 | a file itself, or the leaves of a directory, is appended, unless the system refuses a listing; in every case only paths that begin with the given one |
| Flatten.RecurseDir | src/utils/utils.c:663-707 | unless the system refuses a listing, the leaves are appended in listing order, within the limits of depth and length; in every case only paths that begin with the given one |
| Flatten.ListingDepth | src/utils/utils.c:663-707 | nothing is listed from more than 256 directories below: no listed path has more separators than that allows |
| Flatten.GetCopiedFiles | src/utils/utils.c:431-456 | the regular files among the copied paths, in order |
| Flatten.RegularIsFile | src/utils/utils.c:431-456 | a copied path is listed in version 1 iff it is a file |
| Flatten.RegularOneByOne | src/utils/utils.c:431-456 | each path is judged by itself, and the order is kept |
| Flatten.GetCopiedDirsFiles | src/utils/utils.c:735-767 | the leaves of every copied path, unless the system refuses a listing, and the length of the common parent; in every case only paths at or below the copied ones |
| Flatten.TrimFirstIs | src/utils/utils.c:742-760 | of the copied paths only the first is changed: it loses one separator at its end |
| Forest.NothingPruned | src/utils/utils.c:702-704 | with empty directories listed a tree keeps all its directories |
| Forest.PrunedExactly | src/utils/utils.c:663-707 | what version 2 keeps: every file with its bytes, every directory with a file somewhere below it, and nothing else |
| Forest.RebuildAmong | src/proto/methods.c:655-664 | adding the leaves of any entries one by one to a directory that has none of these names gives the entries back (without file-less directories when those are not listed), so the check for an existing file never stops it |
| RoundTrip.ListedLeaves | src/utils/utils.c:663-707 | within the limits of depth and path length the listed path strings are the paths of all leaves |
| RoundTrip.TreeRoundTrip | src/proto/methods.c:271-377 | for any copied forest within the limits, listing, sending with version 2, 3 or 4 and receiving gives exactly the forest from version 3 on, and the forest without file-less directories in version 2, consuming exactly the bytes sent |
| RoundTrip.ForestIsPromising | src/proto/methods.c:736-803 | such a stream meets the condition under which the whole Get Files run succeeds |
| EndToEnd.DeliveredIs | src/proto/methods.c:736-803 | what a run delivers does not depend on the name of its temp directory |
| EndToEnd.SendThenGet | src/proto/methods.c:736-812 | the whole way through the loops of both clients over any two delivering transports: the receiver ends with every copied top-level entry once, with everything it had before, and without the temp directory; when nothing stands in the way of the names, its directory is exactly the old one plus what was copied; the first copied path may end in a separator |
| Selector.Configuration.ApplyDefaultConf | src/main.c:188-192 | a minimum below 1 becomes 1 and one above 4 becomes 4; the maximum is kept from the minimum to 4 and becomes 4 otherwise; so no configuration leaves 1 .. 4, and a range of known versions is kept |
| Selector.ListToSend | src/proto/methods.c:478-483 | the list each version sends, unless the system refuses a listing: regular files in version 1, leaves below the common parent later; in every case only paths at or below the copied ones |
| Selector.SendCopied | src/proto/methods.c:805-812 | on success one whole list of entries at or below the copied paths was sent; unless the system refuses a listing that is all their leaves; without outside failures it succeeds iff the list is acceptable and every entry can be sent |
| Selector.MethodRequest | src/proto/versions.c:31-66 | goes on iff the server answered the method byte with OK |
| Selector.NegotiateUnknownProto | src/proto/selector.c:68-98 | an offer inside the configured range is echoed and used, any other is refused with a zero byte |
| Selector.SelectVersion | src/proto/selector.c:100-146 | the version in use is the client's highest when the server supports it, otherwise the server's offer, which is inside the range; exactly the greeting was written |
| Selector.ProtoHandler | src/proto/selector.c:33-66 | the invalid-version branch is taken iff the version is not 1 .. 4; a method the version does not know fails without a byte written or read; in every case the run ends where the automaton ends |
| Selector.RunMethod | src/proto/versions.c:70-279 | each granted request runs to the end of its stretch of the automaton and touches only the files it may; on success it is fulfilled: there is a pasted text, the image file holds the announced bytes, the received entries are delivered, or the text or a list of copied entries (all of them, unless a listing was refused) was sent whole |
| Selector.HandleProto | src/proto/selector.c:100-149 | every run follows the session automaton to its end, for any peer and transport; with a range the defaults leave, the invalid-version branch is unreachable; on success the request is fulfilled by the streams after the opening |
| Selector.RunSession | src/clients/cli_client.c:42-52 | with the caller's final close the socket has been closed exactly once, and nothing was read or written after it; on success the request is fulfilled |
| Duality.Diamond | tests/utils/mock_server.py:264-322 | a step of one end does not change what the other can do, and the order of two steps does not matter |
| Duality.Confluence | tests/utils/mock_server.py:264-322 | from every reachable state the same end is still reachable, in the remaining number of steps |
| Exchanges.GetText | tests/utils/mock_server.py:117-129 | the exchange for a text ends, with everything read when both succeed |
| Exchanges.GetImage | tests/utils/mock_server.py:141-155 | the exchange for an image ends, whatever its size and the client's local failures |
| Exchanges.GetFiles | tests/utils/mock_server.py:157-189 | the exchange for any list of files and directories ends, whatever fails on the client |
| SendExchanges.SendLoop | tests/utils/mock_server.py:191-225 | entry by entry, the client's loop and the server's loop end together, or one of them gives up and the other does not wait for it |
| NoDeadlock.SendText | tests/utils/mock_server.py:131-139 | sending a text ends, also when the server cannot decode it |
| NoDeadlock.SendFiles | tests/utils/mock_server.py:191-225 | sending files ends for every version and every list |
| NoDeadlock.Screenshot | tests/utils/mock_server.py:243-259 | asking for a screenshot ends, with or without the display |
| NoDeadlock.Requested | tests/utils/mock_server.py:264-295 | every known request ends after it has arrived |
| Negotiation.ReachesNegotiated | tests/utils/mock_server.py:297-322 | where the negotiation leads, for all ranges of both ends |
| Negotiation.SessionDuality | src/proto/versions.c:31-279 | for every version, request, data, local failure and interleaving the client and the mock server never both wait before one of them starts its close; when both succeed every byte written was read; and both do succeed when the version ranges meet, the request is granted, everything fits the limits and no local operation fails |
| Negotiation.SameEnd | src/proto/versions.c:31-279 | all complete runs of a session end in the same state after the same number of steps |
| Negotiation.VersionsAgree | src/proto/selector.c:100-149 | in every interleaving both ends use one version iff their ranges meet, it is in both and no higher one is, and neither ever uses another |
| Negotiation.UnconfiguredAgrees | src/main.c:188-192 | with the range 1 .. 4 of an unconfigured client both ends use the highest version of the server up to 4, iff its range meets 1 .. 4 |
| Eol.ConvertToLf | src/utils/utils.c:365-379 | the forward loop never overwrites an unread byte and leaves the LF form, terminated |
| Eol.ReallocForCrlf | src/utils/utils.c:323-347 | the new length is exactly that of the CRLF form; no conversion iff there is no bare LF |
| Eol.ConvertToCrlf | src/utils/utils.c:349-362 | the backward loop never overwrites an unread byte, fills the buffer exactly, and leaves the CRLF form |
| Eol.LfForm | src/utils/utils.c:365-379 | the LF form has every byte of the text but the CRs before an LF, in order, and no others |
| Eol.CrlfForm | src/utils/utils.c:349-362 | the CRLF form has every byte of the text, in order, and a CR of its own before each LF without one, and no others |
| Eol.CrlfLength | src/utils/utils.c:323-340 | the CRLF form of a prefix is longer by exactly its bare LFs |
| Eol.LfOfCrlf | src/utils/utils.c:349-379 | LF(CRLF(s)) = LF(s) for all s |
| Eol.CrlfOfCrlf | src/utils/utils.c:349-362 | CRLF(CRLF(s)) = CRLF(s) for all s |
| Eol.CrlfOfLf | src/utils/utils.c:349-379 | CRLF(LF(s)) = s if and only if every LF has exactly one CR before it |
| Eol.LfTwice | src/utils/utils.c:365-379 | LF(LF(s)) = LF(s) if and only if CR CR LF does not occur in s |
| Eol.LfTwiceFails | src/utils/utils.c:365-379 | CR CR LF becomes CR LF, and LF the second time |
| UrlCodec.UrlEncode | src/utils/utils.c:1078-1118 | the second pass fills exactly the buffer that the first pass counted, with the encoded text |
| UrlCodec.EncodeOne | src/utils/utils.c:1078-1118 | letters, digits, -._~/ and @&'()*+,:=! stand for themselves; every other byte is a percent sign and its two upper-case hexadecimal digits |
| UrlCodec.EncodedAllowed | src/utils/utils.c:1078-1118 | nothing but characters of URIs is written, so no space, control byte or byte from 127 on |
| UrlCodec.CountEncoded | src/utils/utils.c:1078-1089 | the first pass counts the encoded length and the terminator |
| UrlCodec.UrlRoundTrip | src/utils/utils.c:933-965 | decode("file://" + encode(s)) = s for every non-empty s; the URL has no NUL and no line end |
| UrlCodec.EncodeInjective | src/utils/utils.c:1078-1118 | different paths have different encodings |
| UrlCodec.UrlDecode | src/utils/utils.c:933-965 | decoding in place gives the decoded bytes, fails exactly on a wrong scheme or a bad escape, and touches nothing before the string or from its end on |
| UrlCodec.EscapeStandsFor | src/utils/utils.c:926-965 | a percent sign and the two hexadecimal digits of a byte, in either case, decode to that byte |
| UrlCodec.NoEscape | src/utils/utils.c:926-965 | any other byte stands for itself, and a percent sign without two hexadecimal digits is an error |
| UrlCodec.FileUrls | src/utils/utils.c:933-938 | only texts that begin with "file://" and go on after it are decoded |
| CutLists.EncodePaths | src/utils/utils.c:1120-1132 | the URLs of the non-empty paths, and the size their list needs |
| CutLists.PrintUrls | src/utils/utils.c:1138-1149 | the list is printed within the allocated buffer and terminated |
| CutLists.SetClipboardCutFiles | src/utils/utils.c:1120-1156 | the buffer of the announced size starts with the printed list |
| ClipboardFiles.PrintedLines | src/utils/utils.c:1120-1156 | line by line the printed text is "cut" and "file://" and the encoding of each non-empty path, in order |
| CutLists.FilledExactly | src/utils/utils.c:1138-1149 | the buffer is filled to its end iff no URL is longer than 4096 bytes |
| CopiedLists.GetCopiedFilesAsStr | src/utils/utils.c:1063-1075 | the list is used iff its first line is "copy" or "cut", and starts right after it |
| CopiedLists.CopiedListIs | src/utils/utils.c:1063-1075 | a text stands for a list iff its first line is "copy" or "cut" and another follows |
| CopiedLists.SplitInPlace | src/utils/utils.c:414-420 | every line end becomes a terminator, and the lines are counted |
| CopiedLists.SplitIs | src/utils/utils.c:414-420 | the lines have no line end in them, and joined by line ends they are the text |
| CopiedLists.DecodeLines | src/utils/utils.c:735-741 | the lines are decoded in place up to the first that is no file URL, and no decode damages a later line |
| CopiedLists.DecodeAllIs | src/utils/utils.c:735-741 | the list has the paths of the usable lines (file URLs of 1 to 2047 decoded bytes) up to the first that is not usable |
| CopiedLists.CopiedPaths | src/utils/utils.c:709-741 | from the clipboard's buffer to the list of paths, as specified |
| ClipboardFiles.ClipboardRoundTrip | src/utils/utils.c:1120-1156 | printing and parsing any list whose encoded lines have at most 2047 bytes gives the non-empty paths back in order, a list without empty paths as it was, with the buffer filled exactly |
| Xclib.Owner.Xcin | src/xclip/xclib.c:307-420 | one event moves owner, property and queues as specified: one chunk per deletion, and an empty property at the end |
| Xclib.Requestor.Xcout | src/xclip/xclib.c:97-248 | one event moves requestor, property and queues as specified: each new value is appended and deleted, an empty one ends the transfer |
| Incr.MoveKeeps | src/xclip/xclib.c:135-248 | every move of either end leads from one of seven kinds of states to another and uses up potential |
| Incr.Conservation | src/xclip/xclib.c:372-415 | at every moment of every interleaving requestor buffer + unread property + unsent rest = the text |
| Incr.TransferEnds | src/xclip/xclip.c:107-165 | every interleaving ends after a bounded number of moves with exactly the text, and the owner has answered ceil(len / chunk) + 1 deletions |
| Incr.ChunksRoundUp | src/xclip/xclib.c:380-393 | the number of chunks is the length divided by the chunk size, rounded up |
| Incr.Interleave | src/xclip/xclip.c:107-165 | owner and requestor objects run in any order go through these states, and the finished buffer is the text |
| Xclip.ServiceIsText | src/xclip/xclib.c:333-346 | the properties of one complete service carry exactly the text |
| Xclip.ServeOnTrack | src/xclip/xclip.c:72-95 | over any events and for both values of the flag at entry: between transfers every request taken up was served completely, within one only its remaining properties are missing; the flag is set iff it was or a SelectionClear came |
| Xclip.DoIn | src/xclip/xclip.c:72-95 | for both values of the flag at entry: the loop returns after the first event after which the selection has been lost, in this call or an earlier one, and no transfer is open; then every request taken up has been served completely, and the flag stays set |
| Xclip.WaitsUnlessCleared | src/xclip/xclip.c:72-95 | every return of a call follows a SelectionClear of that call, for all events, if and only if the flag is not set at entry |
| Xclip.ReturnsAtOnce | src/xclip/xclip.c:72-95 | with the flag set, a call returns after a request for the targets alone, served with a list of two atoms, without a SelectionClear |
| Xclip.ServesOneRequest | src/xclip/xclip.c:72-95 | with the flag set, a call serves what its first event asks for, in full, and nothing else |
| Xclip.ClearedLoopEnds | src/xclip/xclip.c:85-92 | after the selection was lost, an open transfer needs exactly its remaining deletions for the loop to return |
| SwapRemove.TakenOutOnce | src/clients/udp_scan.c:158-161 | swapping with the last entry takes out exactly one occurrence and leaves the entries before it |
| Addresses.AddressList.RemoveLocal | src/clients/udp_scan.c:152-166 | exactly the addresses that are not local stay, as often as they were found |
| Addresses.AddressList.QSort | src/clients/udp_scan.c:170 | the list is replaced by its sorted form |
| AddressOrder.SortSorts | src/clients/udp_scan.c:140-144 | the sorted form is sorted by strncmp and has the same addresses |
| AddressOrder.LeMeans | src/clients/udp_scan.c:140-144 | the order: the first byte in which two addresses differ decides, and a beginning comes first |
| AddressOrder.SortedUnique | src/clients/udp_scan.c:170 | there is only one sorted list with the same addresses, so any correct sort gives it |
| Addresses.AddressList.RemoveDuplicates | src/clients/udp_scan.c:171-180 | the in-place pass computes the swept list |
| Sweeps.SweepKeeps | src/clients/udp_scan.c:171-180 | the pass loses and invents no address, and no two neighbours are equal afterwards |
| Sweeps.SweepDistinct | src/clients/udp_scan.c:168-180 | the pass leaves a sorted list without duplicates if and only if the list peels: from the front, single addresses fall off, and a repeated one is the only one, or appears exactly twice before copies of one other address, or before a list that peels and a last address that occurs once |
| Sweeps.SweepCounterexample | src/clients/udp_scan.c:168-180 | 10.0.0.1 twice, 10.0.0.2 once and 10.0.0.3 twice become 10.0.0.1, 10.0.0.3, 10.0.0.2, 10.0.0.3 |
| Addresses.AddressList.FilterAddresses | src/clients/udp_scan.c:146-182 | the result is the set of found addresses that are not local, none more often than found, no two neighbours equal, and duplicate-free iff the sorted list peels |
| Addresses.Contains | src/utils/clipboard_listener.c:73-85 | found iff the address is in the list |
| Addresses.AddressList.KeepAllowed | src/utils/clipboard_listener.c:95-108 | exactly the allowed addresses stay, as often as they came |
| Addresses.AddressList.ScanServers | src/utils/clipboard_listener.c:87-117 | a list is returned iff it has 1 to 512 entries, and then all are allowed when there is an allow-list, although the filter is skipped from 1024 entries on |

## Left out

- Sockets, TLS, error classification and timeouts: a transport call moves bytes, makes no progress or is fatal; a retry without progress costs no time.
- The close handshake: waiting for one byte before closing is the same as closing; the end of the stream is final.
- Windows and macOS code paths: the separator is '/', and only `_realloc_for_crlf` and `_convert_to_crlf` are taken from the Windows side.
- Status callbacks, error messages and console output: the results they report are return values of the model.
- UTF-8 checking: a parameter of the session, so the statements hold for any check.
- Symbolic links, special files, permissions and files that change while they are sent: the tree has regular files and directories, and a copied path that is neither is not modelled.
- malloc failure and the limits of xcmalloc: memory is there.
- GetFiles.MakeTempDir: the candidates for the temp directory (the time, then random numbers) are a finite list given from outside, so a search that never finds a free name is a failure here.
- GetFiles.GetFilesDirs: the hand-over of the received paths to the clipboard at the end (`set_clipboard_cut_files`) is proved separately, in CutLists, and its failure is not part of the result.
- ImageMethods.SaveImageCommon: an existing file of the same name is replaced, as in the source, so keeping existing files is claimed for Get Files only; the hand-over to the clipboard is not part of it.
- FileSystem: renaming or removing the working directory itself is refused; Get Files never asks for it.
- Mkdirs.Mkdirs: paths with parent steps are excluded; the source would follow them, but passes only the temp directory and parents of received names, which have none. Cutting and restoring the path is done on a copy in an array as in the source; in ReceiveFiles.MakeDirectories, which only shortens the path for one call, it is a slice.
- Selector.RunMethod: version_1 to version_4 and their v-suffixed wrappers are one method with the version as a parameter.
- Selector.ListToSend, Selector.ProtoHandler, Selector.HandleProto, Selector.RunSession: copied paths are as for Selector.SendCopied.
- Selector.SendCopied: the paths must share one parent, as a file manager's selection does; the source reads past the end of a path that is shorter than the parent of the first one.
- UrlCodec.UrlDecode: "file://" with nothing after it is excluded, since the source would read one byte behind its end.
- CopiedLists.DecodeLines: lines are as for CopiedLists.CopiedPaths.
- CopiedLists.CopiedPaths: a line longer than 2047 bytes, from whose middle the source would go on, and a line with nothing after "file://", behind which it would read one byte too far, are excluded by LinesOk; the round trip shows that printed lists never contain them. A decoded path is taken up to its first NUL.
- MockServer: recv of the mock server is taken to return as many bytes as asked for; a failed local operation (decoding, making a directory or a file that exists) ends it.
- Negotiation.SessionDuality: lengths must fit signed 64-bit sizes; for sizes from 2^32 on the mock server gives up, which is covered.
- Incr: one requestor, one property; the fallback of doOut to another target after a refusal, and the listing of targets, are not modelled, since the modelled owner grants every request.
- Xclip.DoIn: calls in concurrent threads, which would share the static variables, are not modelled. Requests that arrive during a transfer in chunks are ignored by the source and are not counted as taken up.
- Addresses: addresses are shorter than the 16-byte buffer, so comparing with strncmp is comparing.
- The UDP scan itself, sending in threads, the web page, the tray icon, installers, configuration files and command lines.
