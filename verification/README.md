# Verified models of the remote-desktop client and host

This project models the parts of the client and host that carry real state or real encodings, and
proves what they promise, for all inputs or for every run:

- **Licence names** (`Base64Url`, `Base64Bits`, `Text`, `CustomServer`, `Extension`, `LicenceName`,
  `LicenceRoundTrip`, `LicenceExact`, `SignedName`, `PrintedName`, `LostName`, `JsonText`,
  `RecordReader`, `HostForm`): a
  server record is printed as JSON, encoded in unpadded base64url, reversed and put into a file name,
  from which the installed program reads it back. The dash is both a letter of the alphabet and the
  delimiter in the file name. The models show that over 7-bit records it can stand at every fourth
  place only, so that no delimiter arises; that a record comes back if none does; and that otherwise
  it can come back only from a proper part of its printed text. The printed JSON determines its
  record, so what is assumed of the JSON reader can be met: the results hold of a reader that inverts
  the printer, with nothing else assumed.
- **Registration with rendezvous servers** (`Mediator`, `HostPrefix`, `UdpLoop`, `OnlineBitmap`):
  several tasks share an identity and the flag that says whose mismatch is being solved; each runs a
  loop with backoff, smoothing and hysteresis; online states arrive as a bitmap.
- **Login** (`Login`): the choice of a password among five places, the tag that remembers where it
  came from, and what is stored after a login.
- **Key states** (`Keyboard`): two tables that must agree, and a sweep that must leave nothing held
  down at the peer.
- **Registries and merges** (`LanMerge`, `FrameSlot`, `SessionRegistry`, `ServiceHub`,
  `PortForward`, `RendezvousList`).

Code that changes state step by step is a class or a method with loops, in the order of the source,
and is proved to compute a function of the old state; the theorems are about these functions and
about runs of them. Each operation is one atomic step. Random numbers, the clock, hash functions,
the JSON reader, the signature check, the IPv6 expression and the key-code tables are parameters;
what is assumed of them is written in the `requires` clauses (`Lawful`, `Whole`, `IsHash`).

Where the code does not keep a promise, the model does what the code does, a lemma gives an input,
and another lemma says for all inputs when the promise is kept:

- a record with characters outside ASCII can be lost (`ExactRoundTrip`, `KatakanaIsLost`);
- the text that `main` of `src/naming.rs` prints into a file name is never read from there
  (`PrintedNameReads`, `PrintedNameIsLost`);
- the relay of a readable file name is garbled, a value with a comma and a last value that ends in
  `.exe` are cut (`HostRoundTrip`, `RelayIsGarbled`, `LostHosts`);
- a confirmation that arrives late is taken for a new identity (`ConfirmedIsAnnounced`,
  `LateConfirmation`);
- the confirmation of one server counts for another with the same prefix (`OwnConfirmationExact`,
  `SharedPrefix`);
- over TCP a confirmation is stored under the prefix and looked up under the whole name
  (`TcpSettlesExact`, `TcpSettlesAlone`);
- a shared password can be stored when the peer changes its salt (`SharedIsNotStored`, `ChangedSalt`);
  it could be after a switch, too (`SwitchStoresShared`), but for this a handler must be initialized
  twice, which the program does not do, so that in its sessions only the salt matters
  (`SharedInOneSession`);
- a stale address can survive a LAN discovery (`AddressesOfThisRun`, `StaleAddress`);
- an interface can end up in two sessions (`AddExistedExact`, `TwoSessionsForOne`);
- forwarded bytes are lost when a send fails (`ForwardedExactly`, `FailedSend`);
- a server list does not survive the process boundary (`RoundTripExact`, `ListsThatChange`), or its
  chosen server is among the others (`ChosenNotAmongOthers`, `RepeatedNameChosenTwice`).

## Model

| member | source | states |
|---|---|---|
| Base64Url.DecodeEncode | src/naming.rs:6 | Decoding the unpadded base64url text of any bytes gives them back. |
| Base64Url.EncodeDecode | src/custom_server.rs:28 | Every text that the decoder accepts is the encoding of its result: no padding, no stray trailing bits, no second spelling. |
| Base64Bits.EncodeIsStandard | src/naming.rs:6 | The encoder writes the only sextets of the standard's length that, read as one number in base 64, are the bytes read in base 256, followed by the filling zero bits. |
| Base64Url.Alphabet | src/naming.rs:6 | The symbols are the capital letters, the small letters, the digits, dash and underscore. |
| Base64Url.AsciiDash | src/naming.rs:6 | Over bytes below 128 a dash can only be the fourth symbol of a group of four. |
| Text.IndexFromSpec | src/custom_server.rs:59-60 | The search finds the least occurrence and fails exactly when there is none. |
| Text.SplitPieces | src/custom_server.rs:92 | No piece of a split contains the delimiter, and each is part of the text. |
| Text.SplitJoin | src/custom_server.rs:61 | Splitting at a character undoes joining with it, for pieces without it. |
| Text.ReplaceKeeps | src/custom_server.rs:88-91 | A replacement keeps every prefix in which no occurrence starts. |
| Text.ReplaceShrinks | src/custom_server.rs:88-91 | Replacing by a shorter text shortens exactly the texts with an occurrence. |
| Text.PartOfReplaced | src/custom_server.rs:88-91 | What holds no `--` and is part of a text after a mark was replaced by `--` was part of it before. |
| Text.MarkNotInside | src/custom_server.rs:88-92 | No part of a replaced text without `--` has the mark in its middle. |
| Text.TrimExactly | src/custom_server.rs:94 | Trimming removes white space, all of it, from both ends, and nothing else. |
| Text.CaseIsIgnored | src/custom_server.rs:40-46 | The extension is recognized in capital and small letters. |
| JsonText.TextOfRecord | src/naming.rs:6 | For every record the JSON text written out: which value stands behind which name, in the order of the declaration. |
| JsonText.Escapes | src/naming.rs:6 | The escapes of quotes, backslashes and control characters. |
| JsonText.Unescaped | src/naming.rs:6 | All other 7-bit characters are printed as they are. |
| JsonText.ValueJoins | src/naming.rs:6 | A value is printed character by character. |
| JsonText.Utf8Examples | src/naming.rs:6 | Characters of two, three and four bytes. |
| CustomServers.GetFieldsFromPieces | src/custom_server.rs:62-86 | The loop over the pieces yields, for each tag, what follows it in the last piece that has it, except that four characters are cut from `relay=`. |
| CustomServers.GetFirstConfig | src/custom_server.rs:98-102 | The inner loop returns the first piece that is a configuration. |
| CustomServers.GetCustomServerFromPieces | src/custom_server.rs:92-104 | The outer loop returns the first success, trying the parts around brackets of a piece that fails. |
| CustomServers.GetCustomServerFromString | src/custom_server.rs:39-107 | The parser as a whole computes the function about which the licence theorems speak, including the removal of `.exe` and `.exe.exe` in any case. |
| LicenceName.NameHasShape | src/naming.rs:5-8 | For every record the printed name decodes to its JSON, starts with neither a dash nor an l and ends in "ye", because of the braces and quotes of the JSON. |
| LicenceName.AsciiNameClean | src/naming.rs:5-8 | The name of a 7-bit record contains neither `--` nor `-licensed-`. |
| LicenceName.Delimited | src/custom_server.rs:88-91 | The three replacements together turn any of the four delimiters into `--`, act on the name by itself and leave the copy numbers alone. |
| LicenceName.CleanNameParses | src/custom_server.rs:87-104 | A clean name that is taken for a record is found behind any delimiter, before any tail that starts with `--`. |
| LicenceRoundTrip.CleanRoundTrip | src/custom_server.rs:39-107 | Every record with a clean name comes back from its file name, with any delimiter, copy numbers, tail without `host=` and spelling of the extension, behind any front that holds no delimiter. |
| LicenceRoundTrip.AsciiRoundTrip | src/custom_server.rs:158-190 | Every 7-bit record comes back, under all these variations of the file name. |
| LicenceRoundTrip.PlainNameHasNoRecord | src/custom_server.rs:115-116 | The application's name without a licence has no record, with any spelling of the extension. |
| LicenceRoundTrip.AppIsHarmless | src/custom_server.rs:113-116 | The application's own name `rustdesk` is not taken for a record. |
| LicenceExact.NameReads | src/custom_server.rs:39-107 | With every reader, what is read from a file name does not depend on its front, delimiter, copy numbers and extension: it is what the first piece gives into which the printed text itself falls. |
| LicenceExact.ExactRoundTrip | src/custom_server.rs:39-107 | With every reader that reads the printed JSON, for every record, 7-bit or not, and any delimiter, copy numbers and extension: the record comes back if the printed text contains neither `--` nor `-licensed-`; otherwise only from a proper part of it, so that without such a part it comes back if and only if the text contains neither. |
| LicenceExact.ReadFromPart | src/custom_server.rs:87-106 | With every reader, from every file name without `host=`: a record is read from a part without `--`, and never from its own printed text if this contains a delimiter. |
| SignedName.SignedTextReads | src/custom_server.rs:31-36 | With every reader: bytes that are not read as JSON themselves, but whose signed content is, give that record under any delimiter, copy numbers and extension if their text contains no delimiter; otherwise only a proper part can. |
| SignedName.SignedRoundTrip | src/custom_server.rs:21-37 | So a signature followed by the JSON of a record comes back as the record. |
| SignedName.AllRefused | src/custom_server.rs:28-36 | With every reader: if every piece of the text fails to decode or is read neither plainly nor as signed, nothing is read. |
| SignedName.ForgedIsRefused | src/custom_server.rs:34-36 | A signed licence whose signature does not hold gives nothing. |
| Extensions.StripCut | src/custom_server.rs:40-46 | Beyond its extension a name loses something exactly if it ends in `.exe` and the extension is not doubled. |
| LostName.KatakanaIsLost | src/custom_server.rs:92 | With any lawful reader, from no name of a record with a halfwidth katakana in its key is anything read. |
| PrintedName.PrintedNameReads | src/naming.rs:21 | With every reader, for every record: if it is read from the file name that `main` prints, it is from another part than the printed text; from the whole if the text contains no delimiter. |
| PrintedName.PrintedBytes | src/naming.rs:21 | That whole decodes, if at all, to the JSON of the record with a byte behind it that is not blank. |
| PrintedName.PrintedNameIsLost | src/naming.rs:21 | So with a reader that takes no JSON text with more behind it, nothing is read from the printed file name of a record with a clean name, every 7-bit one among them. |
| RecordReader.JsonDeterminesRecord | src/naming.rs:6 | Two records with the same JSON text are the same, whatever characters they hold. |
| RecordReader.NameDeterminesRecord | src/naming.rs:5-8 | Two records with the same printed name are the same. |
| RecordReader.ReferenceRoundTrip | src/custom_server.rs:158-190 | With the reader that inverts the printer, every 7-bit record comes back under all variations of the file name, with nothing else assumed. |
| RecordReader.ReferenceExact | src/custom_server.rs:39-107 | With that reader, any record comes back if and only if its printed text holds no delimiter. |
| RecordReader.ReferenceUnclean | src/custom_server.rs:87-106 | With that reader, a record whose printed text holds a delimiter comes back from no file name without `host=`. |
| RecordReader.ReferencePrinted | src/naming.rs:21 | With that reader, no record comes back from the file name that `main` prints. |
| HostForm.HostFormParses | src/custom_server.rs:59-61 | The pieces of a readable name are found again, whatever precedes the first `host=`. |
| HostForm.RelayIsGarbled | src/custom_server.rs:77-79 | A relay tag yields "y=" and its value. |
| HostForm.HostRoundTrip | src/custom_server.rs:117-150 | A record, with its fields in any order and empty ones left out, comes back from its file name if and only if no value has a comma, the relay is not written, and the last value does not end in `.exe` before a single or no extension. |
| HostForm.HostRoundTripComma | src/custom_server.rs:48-58 | With a final comma, and copy numbers or nothing behind it, it comes back if and only if no value has a comma and the relay is not written. |
| HostForm.LostHosts | src/custom_server.rs:59-86 | A host with a comma and a host that ends in `.exe` do not come back. |
| Mediators.Shared.OnTick | src/rendezvous_mediator.rs:587-615 | The timer sends nothing, RegisterPk or RegisterPeer according to the shared state, and changes none of it. |
| Mediators.Shared.OnPeerResponse | src/rendezvous_mediator.rs:267-273 | A request for the key is answered with RegisterPk whoever is solving a mismatch. |
| Mediators.Shared.OnPkOk | src/rendezvous_mediator.rs:277-281 | A confirmation sets both flags and clears the solving flag, whoever holds it. |
| Mediators.Shared.OnPkMismatch | src/rendezvous_mediator.rs:572-585 | A mismatch withdraws the confirmation, changes the identity and claims the flag, or does nothing if another host holds it. |
| Mediators.Shared.OnTcpStart | src/rendezvous_mediator.rs:346 | Starting over TCP withdraws the confirmation under the whole host name. |
| Mediators.Shared.OnTcpTick | src/rendezvous_mediator.rs:374-378 | A due timer sends RegisterPk unless the key is confirmed under the whole host name, whoever is solving a mismatch. |
| HostPrefixes.SamePrefix | src/rendezvous_mediator.rs:134-145 | Two hosts have the same prefix if and only if they are the same or share a first label that is not a 32-bit number. |
| HostPrefixes.WholeName | src/rendezvous_mediator.rs:134-145 | The prefix is the whole name if and only if its label is such a number or it has no dot. |
| HostPrefixes.DecimalsInRange | src/rendezvous_mediator.rs:138 | The printed form of a number parses as a 32-bit number exactly within the range, with either sign. |
| HostPrefixes.OnlyDigits | src/rendezvous_mediator.rs:138 | A text with anything but digits behind an optional sign does not. |
| Mediators.Shared.SetKeyConfirmed | libs/hbb_common/src/config.rs:842-852 | Withdrawing the confirmation forgets the hosts, but only if it was there. |
| Mediators.InvHolds | src/rendezvous_mediator.rs:274-288 | In every run the key is unconfirmed while a mismatch is being solved, and no host is confirmed while the key is not. |
| Mediators.NoPeerWhileSolving | src/rendezvous_mediator.rs:587-615 | In every run no task sends RegisterPeer while a mismatch is being solved. |
| Mediators.OneSolver | src/rendezvous_mediator.rs:572-585 | In every run all changes of the identity made by a mismatch between two clearings of the flag are made by one host. |
| Mediators.SendsExactly | src/rendezvous_mediator.rs:587-615 | In every run: a tick is silent if and only if another host is solving, announces the identity set last if and only if a confirmation under the prefix stands, and otherwise asks for the key of that identity; a request for the key is always answered; a mismatch asks for the new identity unless another host is solving; a due tick over TCP asks unless a confirmation under the whole name stands. |
| Mediators.SolverIsNamed | src/rendezvous_mediator.rs:572-585 | In every run the flag names the host that acted on a mismatch, until it is cleared. |
| Mediators.ConfirmedByPosition | src/rendezvous_mediator.rs:277-281 | In every run a prefix counts as confirmed if and only if a confirmation of it has not been withdrawn since. |
| Mediators.SecondServerAsks | src/rendezvous_mediator.rs:593-598 | A second server asks for its key although the first has confirmed it. |
| Mediators.PeerIsBacked | src/rendezvous_mediator.rs:593-599 | In every run the prefix of whoever sends RegisterPeer has been confirmed, in the run or before it, this has not been withdrawn since, and the identity announced is the one in use at that time. |
| Mediators.ConfirmedIsAnnounced | src/rendezvous_mediator.rs:277-281 | In every run the announced identity is the one whose request was confirmed if and only if it was not set between request and confirmation, or was last set back to it; if no identity comes back, if and only if it was not set. |
| Mediators.OwnConfirmationExact | src/rendezvous_mediator.rs:593-599 | For every set of hosts: in every run whoever announces itself has itself been confirmed, and this has not been withdrawn since, if and only if no two hosts have the same prefix. |
| Mediators.SharedPrefix | src/rendezvous_mediator.rs:134-145 | Two hosts that differ only behind the first dot of their names have the same prefix. |
| Mediators.TcpSettlesExact | src/rendezvous_mediator.rs:374-378 | For every set of hosts: over TCP a host can come to rest in some run if and only if its whole name is some host's prefix; otherwise it asks again at every due tick of every run. |
| Mediators.TcpSettlesAlone | src/rendezvous_mediator.rs:134-145 | A single host can if and only if its name has no dot or its first label is a number. |
| Mediators.LateConfirmation | src/rendezvous_mediator.rs:277-281 | A run in which the answer to a request for one identity makes a host announce another, which nobody has confirmed. |
| UdpLoops.UdpLoop.UpdateLatency | src/rendezvous_mediator.rs:171-197 | A response resets the backoff, updates the average and publishes it under the hysteresis. |
| UdpLoops.UdpLoop.TimerTick | src/rendezvous_mediator.rs:214-252 | A tick counts a fail, backs off, publishes the failure and registers under exactly the stated conditions. |
| UdpLoops.InvHolds | src/rendezvous_mediator.rs:157-197 | In every run the timeout is a multiple of 3000 between 3000 and min(3000 * (fails + 1), 30000); a fail implies an outstanding request; a positive remembered latency is the last one published. |
| UdpLoops.BackoffIsExact | src/rendezvous_mediator.rs:223-227 | With the public server throughout, the timeout equals that minimum. |
| UdpLoops.RegistersExactly | src/rendezvous_mediator.rs:219-251 | In every run, by its positions: a tick registers if and only if the last unanswered registration is as old as the timeout or, without one, the last response, if any, is fifteen seconds old. |
| UdpLoops.FirstTickRegisters | src/rendezvous_mediator.rs:219-228 | The first tick of every run registers. |
| UdpLoops.SpanRegisters | src/rendezvous_mediator.rs:219-251 | In every run with a monotone clock, any thirty seconds without a response that end with a tick have a registration in them. |
| UdpLoops.CountsExactly | src/rendezvous_mediator.rs:223-230 | In every run the fail counter is the number of late registrations since the last response, and the timeout is a function of those under backoff. |
| UdpLoops.FailuresPublished | src/rendezvous_mediator.rs:229-248 | In every run a tick publishes 0 at the second and third late registration in a row, -1 at each further one, and nothing else. |
| UdpLoops.ResponsesExactly | src/rendezvous_mediator.rs:171-197 | In every run, by its positions: which latency a response shows, when it enters the average, and exactly when the average is published. |
| UdpLoops.RegistrationsAreSpaced | src/rendezvous_mediator.rs:219-251 | In every run with a monotone clock two registrations are at least three seconds apart. |
| UdpLoops.EmaBounds | src/rendezvous_mediator.rs:182-187 | Samples in [lo, hi] keep the truncated average in [30 * (lo / 30), hi]. |
| UdpLoops.LoopComputesEma | src/rendezvous_mediator.rs:175-187 | In every run the loop holds this average of exactly the accepted samples. |
| UdpLoops.ConstantDrifts | src/rendezvous_mediator.rs:185 | Under a constant sample of at least 30 the average falls by one a step to the lower bound and stays there. |
| UdpLoops.SmallSampleCycles | src/rendezvous_mediator.rs:182-187 | Under a smaller constant sample it never settles but cycles through zero. |
| UdpLoops.PublishedIsClose | src/rendezvous_mediator.rs:188-196 | In every run, after an accepted response the published latency is within max(average / 5, 3000) of the average. |
| UdpLoops.RecoveryPublishes | src/rendezvous_mediator.rs:229-248 | In every run the first accepted response after two or more fails publishes, whatever lies between. |
| OnlineBitmap.Partition | src/rendezvous_mediator.rs:789-802 | The loop splits the ids by the bits of the bitmap; it fails exactly if the bitmap is too short. |
| OnlineBitmap.PartitionIsExact | src/rendezvous_mediator.rs:791-801 | Both lists keep the order of the ids, hold each id once, and are told apart by exactly its bit. |
| OnlineBitmap.UnpackPack | src/rendezvous_mediator.rs:794-796 | Bits packed with the most significant one first are read back. |
| OnlineBitmap.HighestBitFirst | src/rendezvous_mediator.rs:794-796 | Two bytes, read bit by bit. |
| Logins.LoginConfigHandler.Initialize | src/client.rs:1271-1294 | The stored password is loaded, and the pending switch and shared password are replaced; password and tag stay. |
| Logins.LoginConfigHandler.TryPersonalAb | src/client.rs:2735-2757 | The first entry of the personal address book with the id gives its password, if it is signed in, decodes and is not empty. |
| Logins.LoginConfigHandler.ChoosePassword | src/client.rs:2678-2714 | The cascade refines: the first non-empty of shared, last, preset, stored and personal password, with the tag of its origin. |
| Logins.LoginConfigHandler.HandleHash | src/client.rs:2659-2732 | A valid switch request goes first and is used up; otherwise the chosen password is kept and its challenge response sent. |
| Logins.LoginConfigHandler.HandleLoginError | src/client.rs:2616-2623 | A missing or wrong password is forgotten, and nothing else is. |
| Logins.LoginConfigHandler.HandleLoginFromUi | src/client.rs:2792-2825 | A typed password replaces the last one; an empty one falls back on the last and the stored one. |
| Logins.LoginConfigHandler.HandlePeerInfo | src/client.rs:1886-1911 | What is stored after a login, in terms of the two tag checks. |
| Logins.TagsHold | src/client.rs:1145-1176 | In every run with one salt a password tagged as personal is that entry, and one tagged as shared is the digest of its plain text. |
| Logins.SharedIsNotStored | src/client.rs:1892-1911 | In every run, a password taken from the shared address book is kept out of the file if and only if no switch was answered since and its digests under the salts of then and now agree; exactly what the file then holds. |
| Logins.SharedOrigin | src/client.rs:2659-2825 | In every run such a password stays as it was made until it is replaced, and stays tagged until a switch is answered. |
| Logins.SharedInOneSession | src/client.rs:1888-1901 | In every session that is initialized once, the two digests alone decide. |
| Logins.StoredByTag | src/client.rs:1892-1911 | In every run with one salt what is stored depends on the tag alone. |
| Logins.SharedOncePerInitialize | src/client.rs:2691-2703 | In every run a shared password is used at most once between two initializations. |
| Logins.CascadeExactly | src/client.rs:2678-2714 | In every state without a valid switch request: which password and which tag `handle_hash` chooses, case by case, and that it uses up the shared password. |
| Logins.SwitchExactly | src/client.rs:2669-2677 | With one, the password is kept, the tag dropped and the request used up. |
| Logins.TypedOrigin | src/client.rs:2792-2825 | In every run a typed password is kept as its digest with the salt sent last before it was typed, until it is replaced. |
| Logins.TypedIsStored | src/client.rs:1892-1911 | In every run an accepted typed password is stored if it is to be remembered, and otherwise nothing is. |
| Logins.RememberedIsUsedAgain | src/client.rs:1271-1294 | The next session uses exactly that password, whatever its challenge. |
| Logins.NextSession | src/client.rs:2705-2714 | A new session uses the stored password, or else that of the personal address book. |
| Logins.EmptyTextFallsBack | src/client.rs:2800-2808 | An empty text means the password in use, or else the stored one. |
| Logins.WrongIsForgotten | src/client.rs:2616-2623 | In every run no password is in use after a wrong one until one is chosen or typed; the tag stays. |
| Logins.LoadedIsStored | src/client.rs:1271-1274 | In every run, from the first initialization on, the loaded password is the stored one. |
| Logins.OnlyAcceptanceStores | src/client.rs:1888-1911 | In every run only the peer's acceptance changes what is stored. |
| Logins.FirstEntryDecides | src/client.rs:2740-2752 | The first entry of the address book with the id decides. |
| Logins.ChangedSalt | src/client.rs:1888-1901 | A run, after a reconnection to a peer with another salt, that stores a shared password. |
| Logins.SwitchStoresShared | src/client.rs:2669-2677 | A run with one salt, with a second initialization for a switch, that stores a shared password. |
| Keyboards.Keyboard.ProcessEvent | src/keyboard.rs:104-114 | An event updates both tables and is sent, unless it repeats the press of a modifier. |
| Keyboards.Keyboard.UpdateModifiersState | src/keyboard.rs:524-540 | Exactly the eight modifiers are marked and unmarked. |
| Keyboards.Keyboard.ReleaseRemoteKeys | src/keyboard.rs:360-376 | The sweep releases every key once, in the order in which the table is traversed, and presses Alt once more. |
| Keyboards.RunAgrees | src/keyboard.rs:542-558 | In every run, in any mixture of modes, a modifier is marked exactly while it is to be released. |
| Keyboards.SweepClears | src/keyboard.rs:360-376 | After a sweep in any order nothing is left to release and all modifiers are up. |
| Keyboards.NothingHeldAfterSweep | src/keyboard.rs:855-911 | In every run in map mode in which a key determines its code, at whatever positions, the last event of every code after a sweep is an up. |
| Keyboards.PressIsDown | src/keyboard.rs:855-911 | In every run in map mode a press that does not repeat that of a held modifier puts its code down at the peer until a key with the code is released or a sweep comes. |
| Keyboards.DownExactlyWhileHeld | src/keyboard.rs:104-114 | In every run in map mode in which keys have different codes, a code is down at the peer if and only if its key is held. |
| Keyboards.InputSendsExactly | src/keyboard.rs:344-358 | In every run: exactly which event an input sends, and that the repeated press of a held modifier sends none. |
| Keyboards.SweepSendsExactly | src/keyboard.rs:360-376 | In every run a sweep in map mode sends one release for each held key, for Alt a press and a release more, and nothing else. |
| Keyboards.EightModifiers | src/keyboard.rs:524-540 | Exactly the eight named keys are modifiers. |
| LanMerge.HandleReceivedPeers | src/lan.rs:275-314 | The receive loop computes the merge about which the following lemmas speak. |
| LanMerge.NothingLost | src/lan.rs:286-295 | The merged peers are pairwise distinct and are exactly the stored and the answering ones. |
| LanMerge.MergeExact | src/lan.rs:286-295 | Every entry is the last answer of its peer with the addresses of all its answers, earlier ones winning, or the stored entry, offline; stored addresses get in only behind an answer of the same id under another user name. |
| LanMerge.EarliestWins | src/lan.rs:290 | Of the answers of a peer the first that has an address gives its value. |
| LanMerge.OnlineAreAnswered | src/lan.rs:277-293 | Exactly the answering peers are online. |
| LanMerge.MergeInOrder | src/lan.rs:288-295 | Answering peers come first, the most recent at the front; the others keep their order. |
| LanMerge.NoShadow | libs/hbb_common/src/config.rs:1472-1474 | If no id answers under two user names there is no such answer. |
| LanMerge.AddressesOfThisRun | src/lan.rs:290-293 | An answering entry has the addresses of this discovery alone if and only if no stored address comes back that way. |
| LanMerge.StaleAddress | src/lan.rs:287-293 | Two answers after which a stored address has come back. |
| FrameSlots.FlutterHandler.OnRgba | src/flutter.rs:773-809 | A free slot takes the frame and hands its buffer back; a busy one is left alone, and nobody is notified. |
| FrameSlots.FlutterHandler.GetRgba | src/flutter.rs:1030-1038 | Only a busy slot can be read. |
| FrameSlots.FlutterHandler.NextRgba | src/flutter.rs:1041-1046 | Asking for the next frame frees the slot and nothing else. |
| FrameSlots.FetchIsFirst | src/flutter.rs:783-799 | For every interleaving what can be fetched is the first frame decoded since the slot was freed, and nothing exactly if there was none. |
| FrameSlots.PublishedStays | src/flutter.rs:786-791 | For every interleaving a published frame does not change until the next one is asked for. |
| FrameSlots.BuffersConserved | src/flutter.rs:792-798 | For every interleaving no buffer is lost and none is duplicated. |
| SessionRegistry.Sessions.SessionAdd | src/flutter.rs:1085-1092 | Adding a session is refused exactly if its id is in use. |
| SessionRegistry.Sessions.GetKeyBySessionId | src/flutter.rs:1751-1764 | The search finds an entry with the id if there is one. |
| SessionRegistry.Sessions.InsertSession | src/flutter.rs:1868-1879 | An existing session for the peer is kept and gets the new id. |
| SessionRegistry.Sessions.InsertPeerSessionId | src/flutter.rs:1882-1908 | The id is added if and only if the peer has a session. |
| SessionRegistry.Sessions.RemoveSessionBySessionId | src/flutter.rs:1772-1798 | The id leaves the first entry found that shows it; its session is returned exactly if this was its last id. |
| SessionRegistry.AddExistedExact | src/flutter.rs:1882-1908 | Adding an id to an existing session keeps ids unique if and only if no other peer has it. |
| SessionRegistry.AddIsExact | src/flutter.rs:1868-1879 | Who shows which session after an id is added. |
| SessionRegistry.AddExistedIsExact | src/flutter.rs:1882-1908 | And after it is added to an existing session. |
| SessionRegistry.TwoSessionsForOne | src/flutter.rs:1882-1908 | A run after which an interface shows two sessions, and still one after its removal. |
| SessionRegistry.RegistryHolds | src/flutter.rs:1050-1092 | In every run with fresh ids no session is without an interface and no interface has two sessions. |
| SessionRegistry.RemoveUndoesAdd | src/flutter.rs:1772-1798 | Removing a fresh id restores the registry as it was before it was added. |
| SessionRegistry.RemovalIsLocal | src/flutter.rs:1772-1798 | In every run with fresh ids a removal can find one entry only, drops the session exactly with its last interface and leaves all others in place. |
| ServiceHub.Server.AddConnection | src/server.rs:276-292 | A new connection joins the permitted services, of the video services only the primary one; the connection count equals the number of connections. |
| ServiceHub.Server.RemoveConnection | src/server.rs:294-302 | The connection is unsubscribed everywhere and forgotten; the count equals the number of connections. |
| ServiceHub.Server.SubscribeTo | src/server.rs:324-337 | One service changes, and only if the subscription is not yet as wanted. |
| ServiceHub.Server.CaptureDisplays | src/server.rs:368-393 | The loop treats every video service by whether it is named, and no other. |
| ServiceHub.ServicesValid | src/server/service.rs:82-123 | In every run no subscriber is both old and new. |
| ServiceHub.RemovedIsGone | src/server.rs:294-302 | In every run a removed connection is in no service. |
| ServiceHub.GoneStaysGone | src/server.rs:294-302 | In every run it stays out until it is added or subscribed again. |
| ServiceHub.CaptureIsExact | src/server.rs:368-393 | In every run capturing with inclusion and exclusion leaves the connection subscribed to exactly the existing video services named, and touches no other service or connection. |
| ServiceHub.CaptureByFlags | src/server.rs:368-393 | In every run, with any flags: inclusion adds the existing named video services, exclusion removes the others. |
| ServiceHub.AddIsExact | src/server.rs:276-292 | In every run a new connection is subscribed to exactly the services that it is permitted, of the video services only to the primary one. |
| ServiceHub.SubIsExact | src/server.rs:324-337 | In every run subscribing and unsubscribing do so at one service and touch nothing else. |
| ServiceHub.SnapshotIsExact | src/server/service.rs:82-87 | In every run a snapshot keeps all subscribers and makes them old. |
| ServiceHub.OldHasSnapshot | src/server/service.rs:106-116 | In every run a subscriber of a service with snapshots is old only after one. |
| ServiceHub.NamesOfDisplays | src/server.rs:368-393 | The video service of a display is named by its number. |
| PortForward.Forward.ConnectAndLogin | src/port_forward.rs:124-192 | The login loop keeps local bytes back and releases them first of all when the login is accepted, as far as the send goes. |
| PortForward.Forward.RunForward | src/port_forward.rs:194-217 | The forwarding loop passes chunks on in both directions, as far as each send goes, until one side closes. |
| PortForward.Conserved | src/port_forward.rs:124-192 | In every run, at every moment, what the peer has got followed by what is kept back is what the local side has sent, in order, less exactly what failed sends have lost. |
| PortForward.ForwardedExactly | src/port_forward.rs:194-217 | In every run with an accepted login the peer gets exactly the local chunks in order if and only if no send to it fell short, and the local side the peer's likewise. |
| PortForward.FailedSend | src/port_forward.rs:194-217 | A run in which a chunk is lost because its send fails. |
| PortForward.NothingBeforeLogin | src/port_forward.rs:187-190 | In every run no raw bytes precede the acceptance of the login. |
| PortForward.PhaseByEvents | src/port_forward.rs:124-217 | In every run the login lasts until the first event that decides it, and the forwarding until one side closes. |
| PortForward.MessagesAreFramed | src/port_forward.rs:140-180 | In every run each answer and each message of the interface during the login puts one framed message on the stream. |
| RendezvousList.RoundTripExact | src/ipc.rs:411-416 | The list survives the trip between the processes if and only if it is not empty and no name contains a comma. |
| RendezvousList.ListsThatChange | src/ipc.rs:840-851 | An empty list arrives as one empty name, and a comma cuts a name in two. |
| RendezvousList.GetRendezvousServer | src/common.rs:749-772 | The preferred server is taken if it is in the normalized list, otherwise the last one of the list. |
| RendezvousList.ServersConserved | src/common.rs:764-770 | The chosen server and the others are exactly the servers of the normalized list. |
| RendezvousList.ChosenNotAmongOthers | src/client.rs:299 | The chosen server is not among the others if and only if the preference is in the list or the last name occurs once. |
| RendezvousList.RepeatedNameChosenTwice | src/common.rs:764-770 | A list in which the chosen server is among the others. |
| RendezvousList.ChoiceExactly | src/common.rs:763-770 | The choice, case by case, and whether the preference was in the list. |
| RendezvousList.OthersJoin | src/common.rs:764-765 | Leaving a name out acts name by name, so that order and repetitions stay. |
| RendezvousList.OthersOfOne | src/common.rs:764-765 | A single name is left out exactly if it is the chosen one. |
| RendezvousList.OthersCount | src/common.rs:764-765 | Every other name stands among the others as often as in the list. |
| RendezvousList.PortIsAdded | libs/hbb_common/src/socket_client.rs:13-25 | Exactly when a name is left as it is, and what it becomes otherwise. |
| RendezvousList.PortIsAddedOnce | libs/hbb_common/src/socket_client.rs:13-25 | A second pass changes nothing, unless a plain name with its port is taken for an IPv6 address. |
| RendezvousList.EncodedText | src/ipc.rs:411-416 | A list as it passes between the processes. |

## Left out

- Sockets, hole punching, relays, rebinding of UDP sockets and task scheduling: only the state that each event changes is modelled.
- Interleavings inside one handler, such as the two lock acquisitions of `remove_session_by_session_id`: each operation is one atomic step.
- Registration over TCP (`start_tcp`): its keep-alive check and the interval between its requests; whether a request is due is a parameter.
- The JSON reader, the signature check, SHA-256, base64 of address-book hashes, the IPv6 expression and the key-code tables: library code; they are parameters.
- Legacy and translate keyboard modes: what they emit is a parameter; their effect on the two tables is modelled.
- Lock-mode modifiers of key events, which do not affect the tables.
- Intermediate writes of the LAN peer list during a discovery, and its other text fields beyond one: they would only add copies of fields.
- The user-interface message boxes and options around a login, and the parts of `handle_peer_info` about keyboard modes.
- Texture and GPU rendering, audio, video decoding, clipboard, privacy mode: foreign calls or simple copies.
- PrintedName.PrintedNameIsLost: a record whose printed text contains a delimiter is left to `PrintedNameReads`, because a JSON reader may take a part of that text for the record.
