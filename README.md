# p2p_App core in Dafny

A model of the sequential core of `main.py`, a peer-to-peer chat and file-sharing
application. The program keeps a global list `peers` of `(ip, port)` tuples.
The list changes in three places: the TCP accept loop, the UDP discovery
listener, and the manual connect. Each node announces itself as the datagram
`"host:port"`. A listener splits a datagram on `':'`, converts the port with
`int()`, and adds the address unless it is the node itself or already known.
It then tells every peer about the newcomer. Messages go to every peer in
turn, each attempt inside its own `try`. A file goes out as `FILE`, the base
name and then the contents in reads of up to 1024 bytes. A directory goes out
as `DIRECTORY`, then each walked file's relative path and its contents.

The sockets are replaced by values:

- An oracle `up: Address -> bool` says whether `connect` to a peer succeeds.
- A received datagram is a `string`.
- A file is `Option<Bytes>`, where `None` means `open` fails.
- A walked directory is a sequence of `WalkedFile`.

Files:

| file | module | contents |
|---|---|---|
| `wrappers.dfy` | `Wrappers` | `Option`, `Result` |
| `encoding.dfy` | `Encoding` | bytes; UTF-8 encoding (`str.encode`), RFC 3629 section 3 |
| `announcement.dfy` | `Announcement` | `Address`; `str.split`, `int()`, `str(int)`; the announcement; the peer-list lines; `repr` of an address |
| `transfer.dfy` | `Transfer` | the 1024-byte chunk loop; the file stream and the directory stream |
| `peers.dfy` | `Peers` | the class `PeerRegistry` (the list `peers` and the methods that update or walk it); discovery over a sequence of datagrams; fan-out |

The model follows the code as written:

- **Streams are unframed.** The code writes no length prefix. The model builds
  exactly the bytes written. The lemmas `FileNameBoundaryLost`,
  `DirectoryBoundaryLost` and `TextIndistinguishableFromFile` show that the
  stream does not determine where a name ends, where one file ends, or whether
  it was a file at all.
- **Duplicates are possible.** `connect_to_peer` appends with no membership
  check, so `peers` can hold the same address twice
  (`ConnectToKnownPeerDuplicates`). Only the accept and discovery paths keep
  the list free of duplicates.
- **A malformed datagram is fatal to the listener.** The parse in
  `listen_for_broadcasts` has no handler. The first datagram that does not
  split into exactly two parts, or whose port `int()` refuses, ends the
  listener thread, and later datagrams are never read (`Announced`,
  `ListenForBroadcasts`).
- **Walk order is given, not sorted.** The directory stream uses the order in
  which `os.walk` yields files, taken here as given. A file that cannot be
  opened ends the transfer right after its relative path was sent.

## Model

| member | source | states |
|---|---|---|
| Encoding.EncodeChar | main.py:57 | UTF-8 of one character: 1 to 4 bytes by code-point range, lead byte marking the length, continuation bytes `10xxxxxx` |
| Encoding.EncodeCharRoundTrip | main.py:57 | decoding the bytes of a character's encoding gives back its code point |
| Encoding.Encode | main.py:57 | `message.encode('utf-8')` gives at least one byte per character |
| Encoding.EncodeAppend | main.py:57 | encoding a concatenation is the concatenation of the encodings |
| Encoding.EncodeAscii | main.py:81 | ASCII text encodes to one byte per character, each equal to its code, as the literal `b'FILE'` is |
| Announcement.Count | main.py:123 | occurrences of a character: at most the length, zero exactly when the character is absent |
| Announcement.CountAppend | main.py:123 | occurrences of a character in a concatenation add up |
| Announcement.Split | main.py:123 | `split(':')` gives one more part than there are separators, and no part contains the separator |
| Announcement.SplitJoin | main.py:123 | joining the parts of a split with the separator gives back the text |
| Announcement.JoinExtendFirst | main.py:123 | a character in front of the first part appears in front of the joined text |
| Announcement.SplitAtOnlySeparator | main.py:123 | `h:t` where neither side holds `':'` splits into exactly `[h, t]` |
| Announcement.TrimStart | main.py:124 | the result is a suffix that starts with a non-space, and every character dropped is whitespace |
| Announcement.TrimEnd | main.py:124 | the result is a prefix that ends with a non-space, and every character dropped is whitespace |
| Announcement.Strip | main.py:124 | the whitespace `int()` skips in an ASCII literal, space and U+0009 to U+000D: the result neither starts nor ends with it |
| Announcement.ParseIntNeedsDigit | main.py:124 | `int()` raises on text without a single digit |
| Announcement.StripWithin | main.py:124 | the stripped literal is a run of the original text, starting right after the leading whitespace |
| Announcement.ParseIntRefusesForeignChar | main.py:124 | `int()` refuses text holding anywhere a character that is not a digit, `_`, a sign or whitespace, as in `8o8` |
| Announcement.ParseInt | main.py:124 | `int()` accepts only text that, once stripped, ends in a digit, and gives a negative number only after a leading `-` |
| Announcement.ParseIntOfDigitPart | main.py:124 | `int()` accepts digits with single underscores between them, giving their value |
| Announcement.ParseIntOfNegatedDigitPart | main.py:124 | `int()` accepts `-` followed by such digits, giving the negated value |
| Announcement.StripUnchanged | main.py:124 | text starting and ending with a non-space is not changed by stripping |
| Announcement.DigitChar | main.py:45 | the character for a digit value is a digit with that value |
| Announcement.NatToString | main.py:45 | `str(n)`: non-empty, all digits, no leading zero, and the digits spell `n` |
| Announcement.IntToString | main.py:45 | `str(p)`: a `-` exactly when `p` is negative, and digits everywhere else |
| Announcement.ParseIntToString | main.py:124 | `int(str(p)) == p` for every integer `p`, negative ones included |
| Announcement.IntToStringHasNoColon | main.py:45 | a formatted port never contains `':'` |
| Announcement.FormatAddress | main.py:45 | `f"{host}:{port}"` holds exactly one `':'` more than the host, since the port adds none |
| Announcement.ParseAnnouncement | main.py:123-125 | the datagram fails to unpack exactly when it does not hold one `':'`; an accepted host and a refused port literal never hold `':'` |
| Announcement.ParseAnnouncementCases | main.py:123-125 | a datagram fails to unpack, naming its part count, exactly when it does not hold one `':'`; with one `':'` it is either accepted as the host, the `':'` and a port `int()` accepts, or refused naming the text after the `':'`, which `int()` refuses |
| Announcement.SingleSeparatorCases | main.py:123-125 | `host:port` with no other `':'` is accepted as `(host, p)` exactly when `int(port)` gives `p`, and is otherwise refused naming `port` |
| Announcement.AnnouncementRoundTrip | main.py:123-125 | parsing the announcement `f"{host}:{port}"` formed at line 45 gives back `(host, port)` whenever the host has no `':'` |
| Announcement.NonNumericPortRejected | main.py:124 | one `':'` followed by a port without digits fails as an invalid literal naming that port text |
| Announcement.ForeignPortCharRefused | main.py:123-125 | one `':'` followed by a port holding such a character fails as an invalid literal naming that port |
| Announcement.ParseIntRefusesSeparatorStart | main.py:124 | `int()` refuses a literal that starts with U+001C to U+001F, since it does not skip those characters |
| Announcement.InformationSeparatorRefused | main.py:124 | a datagram whose port literal starts with U+001C to U+001F is refused, naming that literal |
| Announcement.PeerListLines | main.py:136-137 | the peer list shows exactly one line per peer |
| Announcement.PeerListLinesReadBack | main.py:136-137 | each line, read as an announcement, gives back its peer, in list order, whenever the host has no `':'` |
| Announcement.StrRepr | main.py:130 | `repr` of a string: at least two characters longer, the same quote at both ends, double quotes exactly when the text holds a single quote and no double quote |
| Announcement.AddressRepr | main.py:130 | the tuple text is in parentheses and ends with the port as `str()` writes it |
| Announcement.PlainReprBody | main.py:130 | plain printable ASCII is copied unchanged inside a `repr` literal |
| Announcement.PlainAddressRepr | main.py:130 | the notice shows an address with a plain host exactly as `('host', port)` |
| Announcement.NewPeerNotice | main.py:130 | the notice starts with the fixed text `New peer discovered: ` |
| Transfer.Read | main.py:84 | `file.read(size)` at a position gives the next `size` bytes, or all that remain |
| Transfer.FlattenAppend | main.py:86 | sending one more chunk appends its bytes to everything sent |
| Transfer.SendContents | main.py:84-87 | the chunk loop sends every byte exactly once and in order, in non-empty chunks of at most 1024 bytes, all full except the last, `ceil(n/1024)` of them |
| Transfer.FileStream | main.py:81-87 | the stream is `FILE`, then the name, then every byte of the file; when the file cannot be opened it stops after the name |
| Transfer.SendFile | main.py:81-87 | the stream is `FILE`, then the name, then the contents; a file that cannot be opened stops the stream after the name and is not reported as sent |
| Transfer.FileNameBoundaryLost | main.py:82-87 | moving bytes between the end of the name and the start of the contents leaves the stream unchanged |
| Transfer.TextIndistinguishableFromFile | main.py:81 | the text message `"FILE" + x` sends exactly the stream of an empty file named `x` |
| Transfer.DirectoryBody | main.py:99-107 | what follows `DIRECTORY`: each walked file's relative path and then its contents, in walk order, ending right after the path of the first file that cannot be opened |
| Transfer.DirectoryBodyStartsWithPath | main.py:102-103 | the first walked file's path is sent before that file is opened, so it always starts the body |
| Transfer.DirectoryBodyAppend | main.py:99-107 | the body of two walks laid end to end: the second counts only if every file of the first could be read |
| Transfer.DirectoryBodyIsConcatenation | main.py:99-107 | when every file can be read, the body is each relative path followed by its contents, in walk order |
| Transfer.DirectoryBodyStep | main.py:102-107 | one more file adds its path, then its contents when it can be read |
| Transfer.DirectoryBodyStopsAt | main.py:103 | a file that cannot be opened ends the body right after its path |
| Transfer.SendDirectory | main.py:98-107 | the stream is `DIRECTORY` followed by the walk's body, and the transfer succeeds exactly when every file can be read |
| Transfer.SendDirectoryToPeer | main.py:94-112 | nothing reaches a peer that refuses the connection; otherwise that peer gets the directory stream, reported as sent only when every file was read |
| Transfer.DirectoryBoundaryLost | main.py:102-107 | the last bytes of one file may as well open the next file's path: the two walks give the same body |
| Peers.AddIfAbsent | main.py:23-24 | the address ends up in the list; appended at the end only if absent; earlier entries unchanged; membership is the old one plus the address; no duplicates is kept |
| Peers.Discover | main.py:127-128 | the node's own address is never added; any other address is added as on accept; a list without the node keeps it out |
| Peers.ConnectToKnownPeerDuplicates | main.py:209 | connecting to a known peer always leaves a duplicate in the list |
| Peers.Announced | main.py:121-125 | the listener reads at most one address per datagram |
| Peers.AnnouncedParse | main.py:121-125 | each address read is what its datagram parses to, and reading stops exactly at the first datagram that does not parse |
| Peers.AnnouncedAt | main.py:122-125 | the address read at position `j` is what the `j`-th datagram parses to |
| Peers.AnnouncedStops | main.py:122-125 | when fewer addresses than datagrams were read, the datagram after the last one read does not parse |
| Peers.AnnouncedStep | main.py:121-125 | reading from one datagram on is that datagram's address followed by the rest, or nothing if it does not parse |
| Peers.DiscoverAll | main.py:121-128 | discovery over a run of addresses adds at most one peer per address |
| Peers.DiscoverAllAppend | main.py:121-128 | reading one more address is one more discovery step on the list reached so far |
| Peers.DiscoveryKeepsPeersClean | main.py:127-128 | a list without duplicates and without the node itself stays so under any run of discovery |
| Peers.DiscoveryKeepsKnownPeers | main.py:127-128 | discovery only appends: every earlier peer keeps its place |
| Peers.DiscoveredPeersWereRead | main.py:127-128 | a peer added by discovery is one of the addresses read, and never the node itself |
| Peers.DiscoveredPeersWereAnnounced | main.py:122-128 | every peer the listener adds was announced by one of the datagrams it received |
| Peers.MessageAttempt | main.py:54-61 | one attempt of the message loop: sent exactly when `connect` succeeds, and then the peer receives `message.encode('utf-8')`; a refused peer receives nothing |
| Peers.FileAttempt | main.py:78-91 | one attempt of the file loop: a refused peer receives nothing; a connected peer receives the file stream, which is only `FILE` and the name when the file cannot be opened; reported sent exactly when `connect` succeeds and the file can be opened |
| Peers.SentToIsFilter | main.py:53-61 | when each attempt's outcome depends on its peer alone, the peers reported as sent are exactly the reachable peers, in list order |
| Peers.PeerRegistry.constructor | main.py:8 | the list starts empty |
| Peers.PeerRegistry.AcceptConnection | main.py:23-24 | the list becomes the old list with the client added if absent |
| Peers.PeerRegistry.ConnectToPeer | main.py:205-215 | on a successful connect the target is appended with no check; on failure the list is unchanged |
| Peers.PeerRegistry.SendMessageToAll | main.py:52-61 | one attempt per peer, in list order; a reachable peer receives the encoded message and is reported sent; an unreachable one receives nothing and the loop goes on |
| Peers.PeerRegistry.SendFileToAll | main.py:76-91 | one attempt per peer, in list order; a reachable peer receives the file stream and is reported sent only if the file was read |
| Peers.PeerRegistry.OnAnnouncement | main.py:122-131 | a datagram that does not parse raises and leaves the list unchanged; otherwise the list is updated by discovery; the peer is added exactly when it is neither the node nor known, and then every peer, the new one included, is sent the "New peer discovered" notice |
| Peers.PeerRegistry.ListenForBroadcasts | main.py:121-131 | the list ends as discovery over the addresses read; one outcome per address read; the outcome for the `j`-th address, taken against the list discovery had built from the earlier ones, is `Added` exactly when that address is new, and then carries one "New peer discovered" attempt per peer of the grown list, in order; the loop ends early exactly when a datagram fails to parse, and reports that datagram's error |

## Left out

- Sockets, threads and timing are left out: `bind`, `listen`, `accept`, `recv`, `recvfrom`, `sendto` and the five-second broadcast loop of `start_peer_discovery`. Each is replaced by an input value or the oracle `up`. Races between threads on the shared `peers` list are not modelled; every update is one sequential step.
- The oracle `up` covers `connect` only. A send that fails after a successful connect is not modelled, and `send` is taken to write all its bytes; the code never checks its return value. The same oracle answers every attempt to a peer within one call.
- UTF-8 decoding of a datagram (`decode('utf-8')`) is left out, together with its `UnicodeDecodeError`. The listener receives decoded text. Truncation of a datagram longer than 1024 bytes by `recvfrom(1024)` is not modelled.
- Announcement.ParseInt: only literals made of ASCII characters are modelled exactly. For those, `int()` skips only space and U+0009 to U+000D at either end, and the model strips exactly these. A literal holding a non-ASCII character is handled differently by `int()`: non-ASCII whitespace characters count as spaces, and non-ASCII decimal digits are accepted. The model strips only the ASCII set and accepts only ASCII digits.
- Announcement.StrRepr: only the ASCII escapes and `\xhh` for Latin-1 control characters are modelled. Python also escapes other non-printable characters with `\u` and `\U`.
- Announcement.ParseInt: its own contract states only what an accepted literal looks like. The model gives sufficient conditions for acceptance: `ParseIntOfDigitPart`, `ParseIntOfNegatedDigitPart` and `ParseIntToString`. It gives three for refusal: `ParseIntNeedsDigit`, `ParseIntRefusesForeignChar` and `ParseIntRefusesSeparatorStart`. No lemma characterises exactly which literals are accepted. For example, only the definition refuses a literal with a doubled underscore or a leading underscore.
- Announcement.StrRepr: its own contract states only the quoting. What appears between the quotes is stated by `PlainReprBody` for plain printable ASCII.
- Announcement.AddressRepr: its own contract states only the parentheses and the port at the end. The whole text is stated by `PlainAddressRepr` for hosts of plain printable ASCII.
- Announcement.NewPeerNotice: its own contract states only the fixed lead-in. The text after it is stated by `PlainAddressRepr`.
- Peers.DiscoverAll: its own contract states only the growth bound. What discovery keeps and adds is stated by `DiscoveryKeepsPeersClean`, `DiscoveryKeepsKnownPeers`, `DiscoveredPeersWereRead` and `DiscoverAllAppend`.
- Announcement.Strip: its contract states only that neither end is whitespace. That only whitespace was removed is stated by `TrimStart` and `TrimEnd`.
- Announcement.PeerListLines: its own contract states only the line count. What each line says is stated by `PeerListLinesReadBack`.
- Encoding.Encode: its own contract states only the length bound. The encoding is stated by `EncodeChar`, `EncodeCharRoundTrip` and `EncodeAppend`.
- Peers.Announced: its own contract states only the length bound. The meaning is stated by `AnnouncedParse`.
- The file system is left out. `os.walk` with its order, `os.path.join`, `relpath` and `basename` are not modelled: a walk is a given sequence of files, and names and relative paths are given as encoded bytes. The `FileNotFoundError` of `open` is modelled as `None` contents. A directory that cannot be walked is not modelled.
- `handle_incoming_connections` (main.py:28-39) is left out because it only receives and displays. `send_private_message` (main.py:64-73) is the same connect-and-send step as one iteration of `SendMessageToAll`, so it has no member of its own.
- The Tkinter GUI is left out: `display_message`, the list boxes, the dialogs, `send_to_all`, `send_private`, `send_file_to_all`, `send_directory`, `add_peer_manually` and `main`. The console `print` lines are also not modelled. A successful attempt's `sent` flag stands for the "Sent to", "File sent to" and "Directory sent to" lines.
