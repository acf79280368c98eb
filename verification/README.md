# PC_Neighbor discovery and transfer core, in Dafny

PC_Neighbor finds hosts on a local network and copies files to and from their
SMB shares. Under the Avahi, libpcap and libsmbclient plumbing sit a few small,
sequential pieces of logic. This project models them and proves properties about them:

- **The device registry** (`NetworkScanner::scan`, `avahi_callback`,
  `packet_handler`, `start_arp_sniffing`). A scan clears one map from string to
  `DeviceInfo`, and two handlers write into it:
  - the mDNS browser's "new" events, keyed by service name;
  - captured ARP frames, keyed by the sender's dotted-decimal IP.

  The handlers serialise their writes through one mutex. A scan is therefore
  modelled as a fold (`Registry.Run`) over the interleaved event sequence, in
  lock order. A `Deadline` event stands for the main thread setting
  `scan_complete`. `Registry.Scan` describes the copy of the map's values, in
  unspecified order, that `scan` makes once the sniffer thread has been joined.
- **ARP field extraction** (`Arp`). The handler reads `struct ether_arp`
  straight after the 14-byte Ethernet header, at these offsets:
  - sender hardware address at byte 22;
  - sender protocol address at byte 28.

  Neither the opcode nor the captured length is checked. An RFC 826 frame
  encoder, `Arp.EncodeFrame`, serves as the independent reference for those offsets.
- **SMB probing and share listing** (`Samba`).
  - `check_samba` counts a port as live when the root directory at
    `smb://ip:port/` opens.
  - `find_samba_ports` tries port 445, then 4455..4464.
  - `list_shares` keeps the directory entries that do not start with `.`.
- **Download and upload** (`Transfer`). Each opens a source and a destination,
  with two distinct open-failure exits. It then runs a 1024-byte copy loop that
  stops at end of data, at a read error, or at the first short write.

Foreign calls become parameters:

- `smbc_opendir` is a function from URL to handle. `smbc_readdir` is a
  function from URL to the entry names, in order.
- Each open call is represented by the descriptor it returned.
- A file being read is its bytes, plus the sequence of values the read calls
  return. Writes are a sequence of returned counts.
- `ether_ntoa` is a function parameter of unspecified format.
- `inet_ntoa` is modelled as dotted decimal, with a parser proving it loses nothing.

Modules: `Wrappers` (Option), `Bytes` (the octet type), `Text` (decimal and dotted-quad text and their
parsers), `Arp`, `Registry`, `Samba`, `Transfer`.

Points of the code worth knowing before reading the model:

- Port 139 is never tried.
- The probe opens only the root directory, so a live port with no shares is reported.
- The copy buffer is 1024 bytes.
- A read error ends the copy with the result `true`.
- With the sniffer capturing, `scan` returns only after capture ends with an
  error (see the `pcap_loop` line under "## Left out").

## Model

| member | source | states |
|---|---|---|
| Text.IntTextInjective | src/samba_client.cpp:41 | the decimal port rendering in a URL is injective, because it parses back to the port |
| Text.IpTextRoundTrip | src/scanner.cpp:128 | the dotted-quad rendering of the 4 sender-address bytes parses back to exactly those bytes |
| Text.IpTextInjective | src/scanner.cpp:128-132 | two different sender addresses never produce the same registry key |
| Arp.SenderHardware | src/scanner.cpp:125-129 | the MAC field is the 6 bytes at frame offset 22 (14-byte Ethernet header + 8-byte ARP fixed header), for any frame of at least 42 bytes |
| Arp.SenderProtocol | src/scanner.cpp:125-128 | the IP field is the 4 bytes at frame offset 28 (22 + 6), for any frame of at least 42 bytes |
| Arp.SenderFieldsOfEncodedFrame | src/scanner.cpp:121-129 | on every RFC 826 Ethernet/IPv4 frame, whatever its opcode or trailing padding, the fixed offsets recover exactly the sender hardware and protocol addresses, so requests and replies are read alike |
| Registry.Request | src/scanner.cpp:89-96 | only an mDNS "new" event asks for a write, keyed by its name, with name and type from the event and empty ip/mac; a frame asks for a write keyed by the IP from bytes 28..32, with the MAC rendering of bytes 22..28 and empty name/type |
| Registry.Apply | src/scanner.cpp:121-132 | one handler call replaces exactly the requested key and leaves every other key untouched; a frame changes nothing once `scan_complete` is set or when the sniffer is not capturing |
| Registry.Run | src/scanner.cpp:89-132 | the handler calls applied to the events in lock order; its properties are stated by Registry.LastWriteWins (which keys it holds and which record each carries, against a per-event last-writer reference) and Registry.RunFlags (the flags it leaves) |
| Registry.AfterScan | src/scanner.cpp:44-45 | the registry cleared and `scan_complete` reset, then the fold; Registry.LastWriteWins states that nothing from before the clear survives and every key comes from an effective event of this scan, and Registry.RunFlags that the flag is set exactly after the deadline |
| Registry.RunFlags | src/scanner.cpp:44 | after a scan, `scan_complete` is set exactly when the deadline has passed, and frames are captured exactly when the sniffer set up successfully |
| Registry.LastWriteWins | src/scanner.cpp:44-45 | a key is present exactly when some effective event of this scan wrote it, and it holds the record of the last such writer; nothing from before the scan survives |
| Registry.RecordsComeFromThisScan | src/scanner.cpp:44-45 | every stored record was written by an event of the current scan that carries exactly that key and record |
| Registry.IgnoredEventIsInvisible | src/scanner.cpp:89-123 | deleting a non-"new" mDNS event, or a frame arriving after the deadline or with no capture running, leaves the scan's whole outcome unchanged |
| Registry.FailedSnifferAddsNoRecords | src/scanner.cpp:104-115 | when opening, compiling or installing the "arp" filter fails, every stored record is an mDNS record under its own name with empty ip and mac |
| Registry.RegistryKeyedByOwnField | src/scanner.cpp:95-132 | every record sits under its own name (an mDNS record, empty ip) or under its own non-empty ip (an ARP record, empty name) |
| Registry.SharedKeyspace | src/scanner.cpp:95-132 | a service named like an IP string and that IP's ARP record share one key: in either order, only the later write is kept |
| Registry.ReplyIsRecorded | src/scanner.cpp:121-132 | an ARP reply from 192.168.1.10 is stored under "192.168.1.10" with that ip and the sender MAC's rendering |
| Registry.Snapshot | src/scanner.cpp:70-76 | the copied vector has as many elements as the map has keys and holds exactly the map's values, each position taken from a distinct key, in some order |
| Registry.Scan | src/scanner.cpp:43-79 | the result has as many elements as the registry has keys, holds exactly the stored records, and has no duplicates |
| Samba.ServerUrlInjective | src/samba_client.cpp:41 | different ports of one host never share a probe URL |
| Samba.FindSambaPorts | src/samba_client.cpp:51-67 | a port is in the result exactly when it is 445 or in 4455..4464 and `check_samba` succeeds on it; the result is strictly ascending (hence duplicate-free), has at most 11 entries and never holds 139 |
| Samba.CheckSamba | src/samba_client.cpp:40-48 | a port is live when the root directory at its probe URL opens; Samba.LiveExactlyWhenListening states it is true exactly on a server's listening ports, and Samba.LiveWithoutShares that shares play no part |
| Samba.LiveExactlyWhenListening | src/samba_client.cpp:40-48 | against a server listening on some ports, `check_samba` succeeds exactly on those ports |
| Samba.ListingOfListeningPort | src/samba_client.cpp:71-77 | the root URL `smb://ip:port/` of a listening port reads exactly that port's entries, never another port's |
| Samba.LiveWithoutShares | src/samba_client.cpp:40-64 | a listening port whose root lists no visible entry, so that listing it yields no shares, still passes `check_samba` and so is still reported as a candidate port |
| Samba.ListShares | src/samba_client.cpp:69-88 | a failed open yields no shares; otherwise the share names are the non-hidden readdir entries in readdir order, and each path is the URL followed by the name |
| Samba.VisibleDropsExactlyHidden | src/samba_client.cpp:77-83 | the filter drops exactly the entries starting with '.', keeping every other entry as often as it is listed |
| Samba.VisibleKeepsOrder | src/samba_client.cpp:77-83 | the filter keeps the listing order, because it distributes over concatenation |
| Transfer.CopyFrom | src/samba_client.cpp:106-111 | the destination is always a prefix of the source; it is the whole source when the read reached end of data; a short write leaves it strictly shorter |
| Transfer.Copy | src/samba_client.cpp:102-115 | the whole copy loop both transfers run (also src/samba_client.cpp:130-143): the destination is a prefix of the source and is the whole source when the read reached end of data; Transfer.CleanCopyIsExact gives exactness without errors |
| Transfer.CopyChunks | src/samba_client.cpp:102-115 | the loop keeps "written so far is a prefix of the source" as its invariant and returns false exactly when a write fell short |
| Transfer.NoReadErrorWithoutFailedRead | src/samba_client.cpp:106 | when no read call fails, the loop ends only at end of data or at a short write |
| Transfer.CleanCopyIsExact | src/samba_client.cpp:102-115 | with no read error and every write complete, the destination equals the source, whatever chunk sizes the reads return |
| Transfer.Download | src/samba_client.cpp:90-116 | the remote file at `smb://ip/share/path` is opened first, and on failure returns false with nothing else opened; a local open failure closes the remote handle and returns false; otherwise the copy's result decides success; each handle is closed exactly once |
| Transfer.Upload | src/samba_client.cpp:118-144 | the mirror image: local open first, then the remote `smb://ip/share/path` opened for writing; on a remote failure the local handle is closed and false returned; each handle is closed exactly once |
| Transfer.SuccessWithoutReadErrorIsComplete | src/samba_client.cpp:104-115 | without a failed read, a copy that reports success delivered the whole source |
| Transfer.UploadThenDownload | src/samba_client.cpp:90-144 | an upload followed by a download of the same remote file returns the original bytes when both report success and no read failed |

## Left out

- The Avahi client, poll and browser lifecycle, the sniffer thread, the sleep
  and the join (src/scanner.cpp:49-67) are foreign and concurrency-driven. The
  handlers are modelled as a sequential fold over an arbitrary interleaving of
  events. `scan_complete` is a plain shared flag, and the model treats each
  read of it as seeing the latest write.
- libpcap, libsmbclient and POSIX calls are left out. Their results are parameters:
  - the sniffer's setup outcome, as `SnifferSetup`;
  - the captured frames;
  - the opendir handles and readdir listings;
  - the open descriptors;
  - the read and write return values.
- When capture runs, the join may never happen. `pcap_loop(handle, 0, …)`
  (src/scanner.cpp:117) returns only on a capture error or on `pcap_breakloop`,
  which nothing calls; `scan_complete` (:123) only makes the handler skip
  frames, it does not stop the loop. So `arp_thread.join()` (:67) waits, and
  `scan` returns only once capture fails or when the sniffer never started.
  Registry.Scan and Registry.AfterScan with `Capturing` therefore describe a
  result the program reaches only after a capture error; the model does not
  model that error or whether it ever happens, and the events are the ones
  handled before it.
- The format of `ether_ntoa` is not modelled. The MAC text is a function
  parameter of the 6 sender-hardware bytes.
- Arp.SenderHardware: frames shorter than 42 bytes are not modelled; the
  `Frame` type takes the full `struct ether_arp` after the Ethernet header
  (42 bytes) as its minimum. The handler only reads `arp_sha` (bytes 22..27)
  and `arp_spa` (bytes 28..31) at src/scanner.cpp:128-129, so a frame shorter
  than 32 bytes would be read past its end, while a frame of 32..41 bytes is
  read in bounds and recorded by the program but lies outside this model.
- The `SambaClient` constructor and destructor, the global SMB context and
  `auth_fn` are left out. They are process-wide library state and hard-coded
  credentials, not logic.
- `connect`, `list_files`, `scan_configured_nodes`, the 0-argument
  `list_shares` and the 3-argument `download`/`upload` are left out. They are
  declared in include/samba_client.hpp:42-53 but have no bodies.
  `Samba.FileInfo` exists as the record type, but no modelled operation builds one.
- `smbc_closedir` in `check_samba` and `list_shares` is left out. It has no
  effect on the results, so the close trace covers only the transfer handles.
- src/main.cpp, the interactive command line and JSON configuration, is not
  part of this model.
- Re-running `scan` re-allocates the Avahi objects without freeing them
  (src/scanner.cpp:49-56), and nothing calls `avahi_threaded_poll_stop`. An
  earlier scan's poll thread and browser therefore keep calling
  `avahi_callback` on the same map after `scan` returns and during the next
  scan, including while `devices.clear()` (:45) runs without the mutex. The
  fold takes such writes as `Browse` events of the later scan; the leak and
  the race of those writes with the unlocked `clear()` are not modelled.
- Transfer.Download and Transfer.Upload do not model the file mode `0644` or the
  creation of the destination file by `O_CREAT` (the local file in a download,
  the remote file in an upload). The destination is modelled as its
  content after the transfer.
