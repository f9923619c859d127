# A verified model of twiddle

twiddle is a transport that looks like TLS 1.3. A client rewrites a harvested browser ClientHello, signs
it with a ticket, and tunnels over records built like TLS records; a server recognises its own clients and
passes everybody else on. This project models the logic of that transport in Dafny and proves what it is
meant to guarantee.

| files | what they model |
|---|---|
| `Bytes`, `Sets`, `Sorting`, `Runs` | octets, big-endian integers, length-prefixed vectors, finite sets, sorting by a total order, induction over a run |
| `Hello`, `ClientHello`, `HelloLayout` | the ClientHello codec: the grammar and both round trips; the sticky-error cursor and the mutable hello; where each byte of a record stands, and which records are accepted |
| `ExtensionBodies`, `BodiesInPlace`, `BodyViews` | what is rewritten inside an extension body, the loops that do it in place, and what they do value by value and entry by entry |
| `Emission`, `EmissionObject` | GREASE, key shares, ECH and extension order as the emitter redraws them |
| `Forgetting`, `Redrawn` | that nothing of a harvested connection survives the emitter, and where every draw lands |
| `Canonical`, `PoolIdentity`, `Distinguishing`, `IdentityObject` | the canonical form behind the dedup key and the fingerprint of a browser build: what they ignore and what they tell apart |
| `Admission` | the admission test of a pool record against the pipeline it predicts |
| `Auth`, `EchCarrier`, `AuthObject`, `AuthLayout` | tickets and the two authenticators: the binder, and the ECH payload with a MAC in the random; the bytes they put on the wire |
| `Twiddle` | the whole pipeline against the server's validators and verifiers |
| `Samples` | concrete records on which the conditions of the theorems part |
| `DevicePool`, `PoolContents`, `HarvesterObject`, `Screening` | the device pool: one build in use, others held aside; which records it holds; sanitising |
| `Replay`, `ServerGate`, `ServerRuns` | single-use tickets; the authenticated hellos, and all records, of Server calls that share a cache |
| `Contacts` | the memory of completed full handshakes |
| `RecordLayer`, `Interleaving`, `Delivery`, `ConnObject`, `Alone` | one record; any number of writers and closers over two mutexes; what the peer gets; the Conn as one caller sees it, and that it is the same Conn |
| `Shaping` | segmentation and padding |
| `ServerHello` | the synthesised ServerHello and the client's reading of it |
| `Opening`, `HonestOpening`, `HandshakeObject`, `ServerObject` | the two-party opening over a hostile and over an honest network, and the two ends driving a socket |
| `Recorder`, `WireView` | the probe's record splitter, range sampling, and the draws made from it; what the splitter sees of an opening and of a write |

Where the source changes objects or buffers, the model does too: each such class or array method is tied by
its postcondition to a function of values, and the theorems are about those functions. Runs (of the replay
cache, the contact memory, the pool, the scheduler) are sequences of events, and the theorems quantify over
all of them.

## Idealisations

- HMAC, the ticket AEAD and the record AEAD are arguments. `Ideal` asks that a MAC has its length and that
  Open undoes Seal; `Correct` asks the same of the record AEAD.
- That a key opens only what was sealed under it is a hypothesis about the ciphertexts a run actually tries
  to open (`Unforged`, `Genuine`), not an axiom about the function. Collision freedom of a MAC is asked only
  for the two byte strings compared.
- Session keys are known by what they are derived from: hashing and HKDF are injective by construction.
- X25519 is a function on 32-byte keys that may refuse a point; where the two secrets must meet it commutes.
- Every random draw is an argument, and so is every clock reading. Times are integers in nanoseconds.
- The scheduler's events are the steps of threads between lock operations. An event that cannot happen
  changes nothing, so every sequence of events is a schedule.

## Where the code and its documentation differ

- `replay.go:148-149` calls forgetting a client at the horizon safe because the age check already refuses
  such a ticket. The age check refuses only beyond its limit (`auth.go:310`), and Server accepts a horizon
  equal to MaxAge (`handshake.go:269`): at exactly that age a ticket is spent twice
  (`Replay.TwiceAtTheHorizon`, `ServerGate.TwiceAtMaxAge`). Besides, the cache reads its clock before it takes
  its lock, so a late reading may evict what an earlier one then spends again (`Replay.TwiceOutOfOrder`).
  `Replay.TwiceExactly` says when a ticket is accepted again, for every run; `ServerRuns.NotAnsweredTwice`
  gives the margin between horizon and MaxAge under which no ticket is answered twice, in any lock order.
- `source.go:348-356` describes the fingerprint as identifying the build and not the connection. It includes
  the length of the server_name body, so hellos of one build for names of different length count as
  different builds (`PoolIdentity.FingerAfterSNI`; a record: `Samples.FingerprintChanges`).
- `source.go:353-356` takes the fingerprint to tell cipher lists apart. Its input marks no boundaries, so two
  suites of one hello can read as an extension of another: hellos with different suites may share a
  fingerprint, and do not when they have as many suites and compression methods each
  (`Distinguishing.FingerprintMeans`; two records: `Samples.FingerprintConfuses`).
- `harvester.go:243-254` derives the dedup key from what the emitter regenerates. An outer ECH body of one to
  four bytes is the exception: the emitter writes default ids into it, and the key changes
  (`PoolIdentity.RunKeepsKey`; a record: `Samples.DedupKeyChanges`).
- `ParseClientHello` keeps no record version and accepts an announced extension-block length that ends inside
  the last extension (`HelloLayout.DecodesExactly`, `HelloCodec.ExtBudget`).
- `SetKeyShare` looks for an X25519 entry of 32 bytes, `KeyShare` takes the first X25519 entry
  (`ExtensionBodies.InstallThenRead`), so a record Usable admits may give hellos the server cannot use
  (`Samples.InstalledKeyUnread`).
- `shaping.go:23-29` bounds rounding up at about 1.6. It is five thirds at most from five bytes on, except at
  18 to 21 bytes (`Shaping.RatioExact`); the client's 16408 mode never fits a record, so its largest is 16401.

## Model

| member | source | states |
|---|---|---|
| `HelloCodec.DecodeEncode` | hello.go:97-174 | Parsing what Marshal wrote gives the hello back, for every hello whose lengths fit their fields. |
| `HelloCodec.EncodeDecode` | hello.go:97-174 | For every accepted record, marshalling its parse keeps the length and every byte but the record version and the announced extension-block length, parses back to the same hello, and is the same record exactly when those two fields hold 0x0301 and the true length. |
| `HelloCodec.ExtBudget` | hello.go:128-140 | The announced block length is never more than the true one and reaches past the start of the last extension; nothing tighter is checked. |
| `HelloCodec.EncParseExts` | hello.go:128-140 | What the extension loop accepts is exactly an encoding of what it returns. |
| `ClientHelloObject.Reader.U8` | hello.go:65-73 | A failed read sets the error, which then makes every later read return zero and consume nothing. |
| `ClientHelloObject.Reader.U16` | hello.go:75-83 | The same for two bytes. |
| `ClientHelloObject.Reader.Bytes` | hello.go:85-93 | The same for n bytes, negative n included. |
| `ClientHelloObject.ReadExts` | hello.go:128-140 | The loop ends with the cursor in error or short of the end exactly when the block does not parse, and otherwise returns its extensions. |
| `ClientHelloObject.ParseClientHello` | hello.go:97-142 | The cursor parser accepts exactly the records of the codec's grammar and yields the hello they encode. |
| `ClientHelloObject.ClientHello.Marshal` | hello.go:147-174 | The append loops write the record with all five nested lengths recomputed. |
| `ClientHelloObject.ClientHello.Find` | hello.go:185-192 | The first extension of a type. |
| `ClientHelloObject.ClientHello.SNI` | hello.go:195-205 | The first host name, or nothing when the list is cut short. |
| `ClientHelloObject.ClientHello.SetSNI` | hello.go:211-225 | Replaces the first server_name and nothing else; refuses without one or for a name that does not fit. |
| `ClientHelloObject.ClientHello.DropExtension` | hello.go:229-239 | Removes every extension of a type, keeps the others in order, and says whether there was one. |
| `ClientHelloObject.NameRoundTrip` | hello.go:195-225 | SNI reads back what SetSNI wrote. |
| `BodiesInPlace.ReplaceGREASEInU16List` | twiddle.go:298-320 | In place, every GREASE value of the list becomes the draw, within the announced or the real end, whichever is nearer. |
| `BodiesInPlace.ReplaceGREASEKeyShareGroup` | twiddle.go:324-338 | In place, every GREASE group becomes the draw; a cut-off last entry keeps its bytes behind the group. |
| `BodiesInPlace.RerandKeyShare` | twiddle.go:115-133 | In place, every entry gets a fresh value of its own length; fails exactly on a cut-off entry. |
| `BodiesInPlace.InstallKeyShare` | auth.go:216-241 | Copies the key over the first X25519 entry of 32 bytes; nothing changes on failure. |
| `BodiesInPlace.BlankKeyShareValues` | harvester.go:330-342 | In place, zeroes every value and keeps groups and lengths. |
| `ExtensionBodies.ReplaceTwice` | twiddle.go:298-320 | Rewriting a list's GREASE and then blanking it is the same as blanking it: the rewrite moves no boundary. |
| `ExtensionBodies.FreshSucceeds` | twiddle.go:115-174 | Fresh values can be drawn exactly when every entry of the key_share is complete. |
| `ExtensionBodies.FreshKeepsShares` | twiddle.go:115-174 | Fresh values keep a 32-byte first X25519 share one, and make none. |
| `ExtensionBodies.InstallThenRead` | auth.go:216-263 | The key the server reads is the key the client installed exactly when the first X25519 entry has 32 bytes: the writer skips entries of another length, the reader does not. |
| `ExtensionBodies.CanonAfterFresh` | harvester.go:330-342 | Fresh key values leave the blanked key_share unchanged. |
| `ExtensionBodies.CanonAfterRename` | harvester.go:330-342 | So does a redrawn GREASE group. |
| `Emission.FisherYatesPermutes` | twiddle.go:51-58 | The in-place swaps permute the interior. |
| `Emission.ShuffleKeepsEnds` | twiddle.go:23-67 | Shuffle pins the first extension, the trailing GREASE and a pre_shared_key behind it, and permutes what is between. |
| `Emission.ShuffleReaches` | twiddle.go:23-67 | Every order of the interior is produced by some draws. |
| `EmissionObject.ShuffleArray` | twiddle.go:51-58 | The swap loop from the end computes the Fisher-Yates permutation of its draws. |
| `EmissionObject.Shuffle` | twiddle.go:23-67 | Fails exactly when the ends are not as required, and then changes nothing. |
| `EmissionObject.RedrawExtensionTypes` | twiddle.go:254-277 | The first GREASE extension draws ext1, the last of several ext2, any between their own. |
| `EmissionObject.RerandGREASE` | twiddle.go:216-292 | One group draw for supported_groups and key_share; the first list of each type is rewritten. |
| `EmissionObject.RerandECHGrease` | twiddle.go:342-382 | An outer body keeps its KDF and AEAD ids, or gets the default ones when it is too short to hold them, and takes the drawn config id, enc and payload; an inner or empty one is left alone. |
| `EmissionObject.Rerandomize` | twiddle.go:78-101 | The whole refresh, and its failure exactly on a malformed key_share. |
| `EmissionObject.SetKeyShare` | auth.go:216-241 | Installs the key in the first key_share; nothing changes on failure. |
| `Sorting.SortByElements` | harvester.go:316-321 | Two lists sort alike exactly when they hold the same elements, so neither input order nor stability is visible in the result. |
| `Canonical.ExtLeTotalOrder` | harvester.go:316-321 | The comparison by type and then by bytes is a total order. |
| `Canonical.CanonAfterSNI` | harvester.go:272-323 | SetSNI leaves the canonical form unchanged. |
| `Canonical.CanonAfterShuffle` | harvester.go:272-323 | So does Shuffle. |
| `Canonical.CanonAfterKeyShare` | harvester.go:272-323 | So does SetKeyShare. |
| `Canonical.CanonAfterRerandomize` | harvester.go:272-323 | Rerandomize leaves it unchanged exactly when the ECH extension it rewrites is not an outer one of under five bytes; then it grows by five bytes. |
| `PoolIdentity.RunKeepsKey` | harvester.go:255-262 | Over every run of SetSNI, Rerandomize, Shuffle and SetKeyShare that succeeds, the dedup key is kept exactly when no Rerandomize of the run meets an outer ECH body of one to four bytes; each that does makes the canonical form five bytes longer. |
| `PoolIdentity.LongECHKeepsKey` | harvester.go:255-262 | A record without such a body never meets one. |
| `PoolIdentity.FingerAfterRerandomize` | source.go:433-443 | The build fingerprint survives Rerandomize. |
| `PoolIdentity.FingerAfterShuffle` | source.go:433-443 | The build fingerprint survives Shuffle. |
| `PoolIdentity.FingerAfterSNI` | source.go:357-388 | SetSNI keeps the build fingerprint exactly when the new server_name body is as long as the one it replaces: the length of the name is part of the build. |
| `PoolIdentity.RerandomizeKeepsLengths` | twiddle.go:78-101 | Rerandomize keeps every extension's length but that of ECH, and every type that is not GREASE. |
| `IdentityObject.RenderCanonical` | harvester.go:272-323 | The copying, blanking loops and the sort render the canonical form and leave the hello alone; what the form still tells apart is Distinguishing.FormMeans. |
| `IdentityObject.RenderFingerprint` | source.go:357-388 | The loops render what the fingerprint hashes. |
| `Admission.RerandomizeShares` | twiddle.go:78-101 | Rerandomize succeeds exactly on a key_share of complete entries, keeps its X25519 offer as it was, and gives all GREASE groups one value. |
| `Admission.RerandomizedAt` | twiddle.go:78-101 | Every extension that is not GREASE keeps its place and type; its body changes only if it is the first of one of five types, and then as that type asks. |
| `Admission.EmissionWorks` | twiddle.go:23-101 | For every record whose ends Shuffle accepts, pre_shared_key or not and any number of key_shares: in every order the pipeline succeeds and the server reads the installed key, exactly when the first key_share has complete entries and every one has a first X25519 entry of 32 bytes. |
| `Admission.OneShareDecides` | auth.go:216-263 | With one key_share the order makes no difference: the emission succeeds exactly on complete entries with a 32-byte X25519 one, and the server reads the key exactly when that one is the first X25519 entry. |
| `Admission.EmissionShape` | twiddle.go:23-101 | Every successful emission, of any record, has GREASE at both ends with the two different draws, the same extension types and lengths in some order, ECH length aside, and the same suites up to GREASE. |
| `Admission.EmissionGroups` | twiddle.go:279-291 | From a record with one key_share the emitted one names one GREASE group, the draw. |
| `Admission.GroupsAgree` | twiddle.go:279-291 | supported_groups gets the key_share's GREASE draw, and no other value of it changes. |
| `Auth.TicketRoundTrip` | auth.go:150-195 | Open recovers exactly what seal sealed, at every length from the minimum on, and the ticket has the length asked for. |
| `Auth.CompanionSharesInfo` | auth.go:139-145 | The full-handshake companion opens to the client, psk and issue time of its ticket. |
| `Auth.PskRoundTrip` | auth.go:348-390 | parsePSK reads back the ticket, the age and the binder setPSK wrote. |
| `Auth.WithPSKTwice` | auth.go:348-365 | Setting the pre_shared_key again replaces it. |
| `Auth.RecordEndsInBinder` | auth.go:335-365 | The record ends with the binder, and what precedes it depends on the binder's length only. |
| `Auth.TruncatedIndependent` | auth.go:335-341 | The truncated record does not depend on the binder's contents. |
| `Auth.SignedVerifies` | auth.go:267-332 | A hello signed by SetTicketAuth, marshalled and parsed, is the signed hello, and verifyAt returns the ticket's client and psk and the client's X25519 key; it is refused only for a key_share that cannot be read. |
| `Auth.BinderBinds` | auth.go:297-332 | Two accepted hellos of any length with one binder and one psk are the same once each one's pre_shared_key is rebuilt as the last extension, unless the MAC collides on the two strings it covered. |
| `AuthObject.Seal` | auth.go:150-172 | The plaintext buffer filled in place is the client, the psk, the issue time and padding. |
| `AuthObject.SetPSK` | auth.go:348-365 | Every pre_shared_key goes, one is appended last. |
| `AuthObject.SetTicketAuth` | auth.go:267-281 | Signs over the final bytes; refuses binder lengths other than 32 and 48 and then changes nothing. |
| `AuthObject.KeyShare` | auth.go:244-263 | The walk reads the first X25519 entry and refuses one of another length than 32. |
| `AuthObject.VerifyAt` | auth.go:297-332 | Verification rewrites a copy: the hello it is given is untouched. |
| `EchCarrier.PayloadStays` | echcarrier.go:81-103 | Writing the ticket through the payload moves nothing: it is found where it was, as long as it was. |
| `EchCarrier.FullSignedVerifies` | echcarrier.go:167-253 | A hello signed by SetECHTicketAuth keeps its length, and marshalled and parsed is accepted by verifyECHAt with the ticket's client and psk and the client's X25519 key. |
| `EchCarrier.FullMacBinds` | echcarrier.go:212-253 | Two accepted hellos with one psk and one random are equal field for field, unless the MAC collides on the two records it covered. |
| `EchCarrier.FreshECHCarries` | twiddle.go:342-382 | After Rerandomize an outer ECH payload is exactly the drawn bucket, which holds a ticket whatever was drawn. |
| `EchCarrier.FullHandshakeCarriers` | echcarrier.go:132-144 | Keeps exactly the records that parse and whose payload holds a ticket, in order. |
| `AuthObject.SetECHTicketAuth` | echcarrier.go:167-200 | Writes through the extension's own bytes, then clears and sets the random; nothing changes on failure. |
| `AuthObject.VerifyECHAt` | echcarrier.go:212-253 | Verification of the other shape; the hello is untouched. |
| `Twiddle.Emit` | twiddle.go:424-470 | The five steps in their order, for both shapes, and failure of any of them. |
| `Twiddle.ResumedExactly` | twiddle.go:424-470 | One resumption of any record, for the draws it made: it is accepted exactly when the shaped hello shows the installed key, a name the cover accepts and the cover's suite. |
| `Twiddle.FullExactly` | twiddle.go:424-470 | One full handshake of any record: there is an emission exactly when the shaped hello has room for the ticket, and it is accepted exactly when it shows those three. |
| `Twiddle.ResumedAccepted` | twiddle.go:424-470 | From a workable template, with a pre_shared_key or without and with any number of key_shares and names that work, every resumption whose lengths fit parses back, passes the cover's checks, names the credential's ticket as the one to spend, and gives the server the client, the psk and the very key the client installed. |
| `Twiddle.FullAccepted` | twiddle.go:424-470 | The same for a full handshake, from a template whose first ECH extension is outer: a pre_shared_key the template carries is dropped, and the ticket rides in the ECH payload. |
| `Twiddle.SpendsWhatItOpened` | cover.go:179-245 | For both shapes the ticket validateClientHello names is byte for byte the one the chosen verifier opened. |
| `ServerObject.Validate` | cover.go:179-245 | The validators on the parsed hello: name, suite, then the shape's own checks. |
| `RecordLayer.NonceInjective` | conn.go:239-248 | Two records of one direction share a nonce exactly when they share a sequence number. |
| `RecordLayer.StripInner` | conn.go:362-370 | Stripping padding gives back type and payload, also for payloads that end in zeros. |
| `RecordLayer.ReadRecord` | conn.go:297-371 | decryptRecord recovers exactly what writeRecord wrote, at every padding, and stops exactly behind it. |
| `Interleaving.LockedStep` | conn.go:262-333 | Every step of every thread keeps mutual exclusion on both mutexes, on the flush and on the close. |
| `Interleaving.WiredStep` | conn.go:297-316 | Every step keeps the numbering of sealed records and the order in which they reach the socket. |
| `Interleaving.ConservedStep` | conn.go:262-295 | Every step keeps: bytes queued are the bytes sealed, then those cut off but not yet sealed, then those in the buffer. |
| `Delivery.OneAlertStep` | conn.go:419-424 | Every step keeps the number of close_notify records at what the state of the once says. |
| `Delivery.NoncesDiffer` | conn.go:297-316 | In every schedule of Writes and Closes, no two of the first 2^64 records are sealed under one nonce. |
| `Delivery.WireOrder` | conn.go:297-316 | The socket writes are, one for one in sealing order, those of the sealed records: each that went through put its whole record out, also after another failed, and a failed one a prefix. |
| `Delivery.AtMostOneAlert` | conn.go:419-424 | At most one close_notify in every schedule, and exactly one once a Close is past it. |
| `Delivery.NoDeadlock` | conn.go:262-333 | While any thread is inside Write or Close, some thread can take a step. |
| `Delivery.PeerReadsNext` | conn.go:344-371 | Whatever arrives, the peer fails or reads exactly the next record sealed. |
| `Delivery.PeerDeliversPrefix` | conn.go:262-406 | In every schedule, for every shaper, every socket failure and every network, the peer delivers a prefix of the bytes queued in lock order. |
| `Delivery.PeerDeliversWritten` | conn.go:262-424 | At any point of any schedule with no failed write and takes of 1 to 16384 bytes, Closes included, a peer reading the socket's bytes delivers exactly what the records written so far carry in front of the close_notify. |
| `Delivery.PeerDeliversAll` | conn.go:262-424 | Once every call has returned, that is everything sealed before the close_notify, and everything queued when nothing was closed. |
| `ConnObject.Conn.WriteRecord` | conn.go:297-316 | Pads, numbers, seals and writes one record, and advances the counter also when the write fails; one that goes through puts a whole record on the socket, outer type 0x17, version 0x0303, its own length, and behind it the payload, type and zeros sealed under that header. |
| `ConnObject.Conn.Write` | conn.go:262-295 | An earlier failure is reported; while another flush runs the bytes are left to it; else the flush loop empties the buffer through the shaper or stops at the first failed write. |
| `ConnObject.Conn.WriteSized` | conn.go:322-333 | One record of exactly the length asked for, or nothing. |
| `ConnObject.Conn.Close` | conn.go:419-424 | One close_notify of 24 bytes on the first call, none later; the socket ends closed. |
| `ConnObject.Conn.DecryptRecord` | conn.go:344-371 | One record off the socket, with the zero-stripping loop. |
| `ConnObject.Conn.Read` | conn.go:373-406 | Hands over the next bytes of the stream in order, skips what carries nothing, and fails only when nothing is left. |
| `ConnObject.FlushThenDrain` | conn.go:262-406 | Whatever the shaper does with them, the bytes of a write are what a reader in step turns the records back into, and the two stay in step. |
| `ConnObject.ShapersFit` | shaping.go:62-110 | Both kinds of shaper take between one byte and a record's worth. |
| `Shaping.BrowsingShaper` | shaping.go:72-90 | The loops keep the modes a record can have and find the largest below the maximum. |
| `Shaping.BrowsingFits` | shaping.go:92-110 | Every answer takes at most what there is and at most 16384 bytes, pads to a measured length or the largest, and adds padding only when nothing is left. |
| `Shaping.CutsMoveAll` | shaping.go:72-110 | Draining any number of bytes ends and moves exactly that many; each record's length is in the table or 16401; none but the last is padded. |
| `Shaping.RatioExact` | shaping.go:92-101 | A single record costs at most five thirds of its content exactly from five bytes on, outside 18 to 21 bytes. |
| `ServerHello.SynthesizeServerHello` | serverhello.go:80-143 | The appends build the record in the cover's extension order; a session id that cannot be echoed is refused. Where each byte stands: ServerHello.FrontLayout and ServerHello.BlockLayout. |
| `ServerHello.ParseServerHelloExtensions` | serverhello.go:166-193 | The cursor collects the extensions, a later one of a type replacing an earlier one. |
| `ServerHello.EphemeralRoundTrip` | serverhello.go:80-164 | The client reads exactly the key the server put in, for every session id of 1 to 32 bytes, both orders and both shapes; with a 32-byte id the record has 1221 bytes resumed and 1215 full. |
| `Replay.ReplayCache.Consume` | replay.go:100-135 | Evicts, then admits an unknown client, a newer second, or an untried ticket of the same second. |
| `Replay.ReplayCache.EvictLocked` | replay.go:150-156 | Forgets exactly the clients whose newest ticket has reached the horizon. |
| `Replay.ReplayCache.DropOldestLocked` | replay.go:164-176 | Drops one least recently active client. |
| `Replay.NeverTwice` | replay.go:100-135 | A ticket accepted once is refused as long as no call since read a clock at or past its horizon and the backstop left its client alone. |
| `Replay.TwiceExactly` | replay.go:100-156 | In every run, whatever the client presented in between: a ticket accepted once is accepted again exactly when this very call ousts its client (by its clock or by the backstop), or an earlier one since did and no call from then on was accepted with that ticket or a newer one. |
| `Replay.FirstRepeat` | replay.go:100-156 | When nothing else of the client was admitted in between, that is exactly when some call since, itself included, read a clock at or past the ticket's horizon or made the backstop drop the client. |
| `Replay.NeverTwiceWithinSkew` | replay.go:100-135 | With readings since the first presentation at most some skew ahead of the second's, no ticket is accepted twice that comes back more than that skew below its horizon. |
| `Replay.NeverTwiceInOrder` | replay.go:100-135 | With clock readings in lock order, a presentation below the horizon and the client never dropped by the backstop in between, no ticket is accepted twice. |
| `Replay.RepeatAccepted` | replay.go:150-156 | A ticket repeated next is accepted exactly when its age has reached the horizon. |
| `Replay.TwiceAtTheHorizon` | auth.go:310-312 | A ticket whose age equals both MaxAge and the horizon passes the age check and is spent twice. |
| `Replay.TwiceOutOfOrder` | replay.go:106-110 | Clock readings out of lock order let a ticket well below the horizon be spent twice. |
| `Replay.Bounded` | replay.go:137-146 | The tracked set never exceeds its bound. |
| `Replay.FreshAccepted` | replay.go:112-134 | A ticket never spent, and not older than any spent one of its client, is accepted, whatever was evicted. |
| `Replay.BothSpendable` | auth.go:111-123 | Two tickets of one issue time are both accepted in either order when none newer was spent. |
| `ServerGate.NoTicketTwice` | handshake.go:262-300 | Over all Server calls sharing key and cache, in any lock order, no ticket reaches a ServerHello twice when the horizon exceeds MaxAge by more than the delay between the second call's two clock readings plus the lead of any reading in between, and the backstop leaves the client alone. |
| `ServerGate.TicketTwiceExactly` | handshake.go:262-300 | Without the margin, over authenticated hellos and whatever else was presented in between: exactly when a ticket is let through again. |
| `ServerRuns.NotAnsweredTwice` | handshake.go:250-334 | Over all records that reach Server calls sharing key and cache, recognised or not, in any lock order: of two that present one ticket at most one is answered, when the horizon exceeds MaxAge by more than the delay between the second call's two clock readings plus the lead of any reading in between, and the backstop leaves the client alone. |
| `ServerRuns.AnsweredAgain` | handshake.go:250-334 | Without the margin: exactly when the second is answered as well. |
| `ServerGate.TwiceAtMaxAge` | handshake.go:265-271 | With the horizon equal to MaxAge, which Server accepts, a ticket presented twice in a row passes again exactly when its age has reached MaxAge at the cache. |
| `ServerGate.BothTicketsSpendable` | auth.go:111-123 | The two tickets of one credential are both let through, in either order and on either path. |
| `Contacts.ContactMemory.NeedsFull` | contacts.go:157-171 | Full unless a live entry is there; the generation it belongs to. |
| `Contacts.ContactMemory.Record` | contacts.go:191-202 | Nothing under another generation; else the entry, then expiry, then the bound by dropping oldest entries. |
| `Contacts.ContactMemory.EvictLocked` | contacts.go:210-227 | Drops what is past the horizon, then the oldest until the bound is met, and none newer than one it keeps. |
| `Contacts.ContactMemory.Reset` | contacts.go:104-112 | Forgets everything and moves to the next generation. |
| `Contacts.ResumeIsVouched` | contacts.go:157-202 | In every interleaving, a decision to resume rests on a full handshake of the same pair recorded less than a horizon earlier under a decision after which no reset came. |
| `Contacts.ResumedUntilHorizon` | contacts.go:157-202 | The other way: such a recording is resumed on exactly until the horizon, unless reset, replaced, expired by another clock or dropped for the bound. |
| `Contacts.Bounded` | contacts.go:216-227 | The map never exceeds its bound. |
| `DevicePool.AlwaysSound` | harvester.go:81-177 | From an empty or single-build file, after every sequence of offers: one build, at most max, no contribution twice; at most max+1 held aside, none of the pool's build, none outnumbering it. |
| `DevicePool.AlwaysBounded` | harvester.go:81-177 | From any file, of one build or several, after every sequence of offers: both lists within their bounds and without repeats. |
| `DevicePool.SoundOncePromoted` | harvester.go:137-177 | From any file: once an offer has promoted a build, the pool is of one build ever after, as AlwaysSound says. |
| `DevicePool.LeaderKeepsSamples` | harvester.go:211-233 | A build strictly leading what is held aside loses no sample to the bound. |
| `DevicePool.TakesOver` | harvester.go:137-166 | A build takes over exactly when its samples outnumber the pool; the pool is then the latest of them, the one just offered last (PoolContents.OtherBuildOffered), and nothing is held aside. |
| `HarvesterObject.Harvester.Offer` | harvester.go:81-177 | Whatever the pool holds, screened records only, pooled as PoolContents.AcceptedIsLast says; the key sets stay exactly those of the two lists, and a sound pool stays sound. |
| `HarvesterObject.Harvester.TrimPending` | harvester.go:211-233 | The eviction loop drops the oldest sample of the smallest group until the budget is met. |
| `HarvesterObject.Harvester.constructor` | harvester.go:53-71 | Loads the first max distinct records that parse, from any file; a single-build file gives a sound pool. |
| `HarvesterObject.LargestBuild` | source.go:165-190 | The group that is largest, ties to the smaller fingerprint. |
| `HarvesterObject.Sanitize` | source.go:317-346 | Filters in place, blanks in place; refuses without a server_name. |
| `HarvesterObject.SanitizeForgets` | source.go:317-346 | Hellos that differ only in the name's letters, tickets, early data, random and session id are stored alike. |
| `Opening.TranscriptBinds` | conn.go:78-86 | The transcript is the same exactly when all three payloads are, and never looks at a record header. |
| `Opening.KeysAgree` | conn.go:103-149 | With one psk, secret and suite the two ends derive equal keys exactly when every payload byte of the opening agrees. |
| `Opening.TicketsRoundTrip` | handshake.go:391-474 | readTickets reads back exactly the credential writeTickets wrote. |
| `Opening.ServerWritesFit` | handshake.go:343-369 | The server's writes succeed exactly for remainder lengths of 22 to 16406 and tickets of at most 314 bytes. |
| `Opening.ClientAgrees` | handshake.go:181-246 | A completed client, on any network: the server is in the same session for the same hello and shape, every read is the write at its place, the counters meet, and the credential is the one the server issued. |
| `Opening.ServerAgrees` | handshake.go:304-369 | A completed server, on any network: the client got as far as its keys, for the same hello, shape, psk and every payload byte of the opening, and what the server read is the client's Finished stand-in. |
| `Opening.BothComplete` | handshake.go:181-369 | When both complete: one session, one hello and shape, server-send equals client-receive equals the remainder count plus 2, client-send equals server-receive equals 1, and the credential is the one issued. |
| `Opening.BegunStarted` | handshake.go:271-334 | A server that has begun, whatever its cache held, holds the parsed hello, the shape its pre_shared_key shows, and keys bound to what it read, its own reply and its ChangeCipherSpec. |
| `HonestOpening.HonestRun` | handshake.go:181-369 | Over a network that delivers, a server that answered the client's hello completes and so does the client, whenever the flight's records are writable. |
| `HonestOpening.EndToEnd` | twiddle.go:424-470 | The opening whole, for both shapes: from a workable template and a credential that holds, the emitted hello is recognised, its unspent ticket is taken, the server answers in the client's shape for the client the ticket names, both ends complete in one session with counters that meet, and the client leaves with the issued credential, whose two tickets open to that client. |
| `HonestOpening.ReplySucceeds` | handshake.go:304-334 | The server answers a recognised hello exactly when its session id has 1 to 32 bytes, the client's point is not refused and the suite is one of the two. |
| `HonestOpening.EmissionShowsShape` | handshake.go:284-289 | The hello a client emits shows the server the shape the client chose. |
| `HandshakeObject.Client` | handshake.go:79-247 | The reads and writes in sequence; when its writes go through it succeeds exactly on the streams on which a client can complete, and then its connection has a completed client's keys and counters. |
| `HandshakeObject.WriteTickets` | handshake.go:391-403 | Two sized records, the second only after the first went through. |
| `HandshakeObject.ReadTickets` | handshake.go:405-474 | Two records, both of handshake type and of exact length, or an error. |
| `HandshakeObject.ReadRecordFrom` | handshake.go:477-492 | One record off the socket, within the length limit. |
| `ServerObject.BeginServer` | handshake.go:271-334 | Exactly what Begin says of the record read: a hello that is not recognised leaves cache and socket alone, a spent ticket is evicted for and not answered, an unspent one is answered exactly when the socket takes both records and a reply can be made, and then those are on the socket. |
| `ServerObject.EndServer` | handshake.go:336-369 | The flight, the client's answer, then issue and tickets: success gives what FinishServer gives, its bytes on the socket and its counters in the connection, and on a socket that takes every write it comes whenever FinishServer does. |
| `Opening.IssuedHolds` | auth.go:102-123 | Both tickets of an issued credential open to one client, psk and issue time, so either is accepted exactly as long as the other. |
| `Recorder.Recorder.Read` | harvest/coverprobe/coverprobe.go:240-256 | The records and the leftover are a function of the bytes fed, whatever pieces they came in. |
| `Recorder.SplitMore` | harvest/coverprobe/coverprobe.go:240-256 | Splitting after each read keeps the records it would keep at the end. |
| `Recorder.SizesConserved` | harvest/coverprobe/coverprobe.go:245-252 | The recorded sizes and the leftover add up to the bytes fed, and no complete record is left. |
| `Recorder.SampleFull` | harvest/coverprobe/coverprobe.go:298-351 | The least length and the range at each position; refused for under two samples or a changing count. |
| `Recorder.DrawFullRemainder` | cover.go:273-294 | Each length is the baseline plus a draw of at most its jitter; refused without a baseline or with a jitter list of another length. |
| `Recorder.DrawsCoverSamples` | cover.go:273-294 | Every sampled flight is one the server may draw. |
| `Forgetting.FreshEntries` | twiddle.go:115-174 | Every entry of the key_share keeps its group and length and holds its own draw: a curve key, an encapsulation key, or zeros. |
| `Forgetting.RerandomizeForgets` | twiddle.go:78-101 | Nothing of the harvested connection survives: two captures of one browser that differ in random, session id, GREASE, key values and ECH payload are rerandomized alike under the same draws. |
| `HarvesterObject.SanitizedKeeps` | source.go:317-346 | No pre_shared_key, early data or ticket is left and the name is a placeholder of its length; every other extension stays as it was, in order. |
| `DevicePool.OnlyOffered` | harvester.go:81-177 | The pool and what is held aside hold nothing but records loaded or offered. |
| `HonestOpening.HonestFlightGenuine` | handshake.go:221-236 | A delivered flight meets the authenticity hypothesis of ClientAgrees, so that theorem speaks of real runs. |
| `HonestOpening.HonestAnswerGenuine` | handshake.go:355-360 | A delivered answer meets that of ServerAgrees. |
| `ServerObject.Server` | handshake.go:250-370 | The whole server: the cache is left as Begin says; a connection comes back only from a recognised, unspent, answered hello and a completed opening, with that opening's bytes on the socket, its counters and the credential issued, and on a socket that takes every write from every opening that can be completed. |
| `ServerObject.SpendAndReply` | handshake.go:299-334 | A refused ticket leaves the cache after its eviction and sends nothing; an accepted one is marked spent whether or not the answer then goes out, and is answered exactly when the socket takes both records and a reply can be made. |
| `HandshakeObject.EndClient` | handshake.go:221-236 | The reads, the ChangeCipherSpec, the sized record, the tickets, in that order. |
| `Samples.DedupKeyChanges` | harvester.go:255-262 | A usable record whose dedup key every Rerandomize changes. |
| `Samples.FingerprintChanges` | source.go:357-388 | A usable record whose fingerprint changes under a name one byte longer. |
| `Samples.InstalledKeyUnread` | auth.go:216-263 | A usable record on which every emission succeeds and the server then reads another key or none. |
| `Samples.ResumingTemplate` | twiddle.go:444-457 | A record that carries a pre_shared_key and is a workable template for both shapes. |
| `HelloLayout.GreaseValues` | hello.go:55-57 | GREASE is sixteen values: 0x0a0a and every 0x1010 from there. |
| `HelloLayout.FieldsStand` | hello.go:147-176 | Marshal byte by byte, for every hello that fits: the record and handshake headers with their lengths, version, random, session id, each suite, the compression methods, the block length, and each extension's type, length and body at its place. |
| `HelloLayout.DecodesExactly` | hello.go:97-142 | The parser both ways: a record parses to a hello exactly when the hello fits and the record is its encoding but for the record version, which is anything, and the announced block length, which may stop short inside the last extension. |
| `BodyViews.ReplacedList` | twiddle.go:298-320 | Value by value: each GREASE value of the announced list, cut to the body, becomes the draw; the length in front, the other values, an odd byte and whatever is behind stay. |
| `BodyViews.RenamedEntries` | twiddle.go:324-338 | Entry by entry: a GREASE group becomes the draw and every value stays; a cut-off last entry has its group renamed too. |
| `BodyViews.InstalledEntries` | auth.go:216-241 | Succeeds exactly when a complete 32-byte X25519 entry is there; the first such entry takes the key, every other entry and the bytes behind them stay. |
| `BodyViews.ReadsFirst` | auth.go:244-263 | The key read is the value of the first X25519 entry, whatever its length. |
| `BodyViews.BlankedAlike` | harvester.go:330-342 | Two key_shares have one blanked form exactly when they offer the same groups up to GREASE with values of the same lengths, in the same order, and end alike. |
| `BodyViews.FoldedAlike` | twiddle.go:298-320 | Two lists fold to the same bytes exactly when they hold the same values up to GREASE and the same bytes around them. |
| `Redrawn.DrawsLand` | twiddle.go:78-382 | Where every draw of Rerandomize lands: random, session id, GREASE suites, the first, last and interior GREASE types, the values of three lists, each key_share entry, and of an outer ECH body its ids, config id, enc and payload byte by byte; and that nothing else changes. |
| `Redrawn.ECHBytes` | twiddle.go:342-382 | An outer body after rerandECHGrease, byte by byte: the ids it had or the default ones, the drawn config id, 32 bytes of enc and the payload of the drawn bucket; an inner or empty one unchanged. |
| `Redrawn.SharesBytes` | twiddle.go:115-174 | Every key_share entry keeps its length and group, GREASE renamed, and holds the key drawn for it or zeros; nothing behind the entries changes. |
| `Redrawn.KeyLands` | auth.go:216-241 | SetKeyShare succeeds exactly when the first key_share has a complete 32-byte X25519 entry, and writes the key there and nowhere else in the hello. |
| `Redrawn.KeyIsRead` | auth.go:244-263 | KeyShare reads the first X25519 entry of the first key_share, when that has 32 bytes. |
| `AuthLayout.TicketStands` | auth.go:150-172 | A ticket is its nonce and, sealed under it, the client and the issue seconds in big-endian, the psk between them, and drawn padding up to the length asked for. |
| `AuthLayout.SignedStands` | auth.go:267-365 | SetTicketAuth keeps every other extension in order and puts one pre_shared_key last, its lengths, ticket, age and binder each at its place. |
| `AuthLayout.BinderStands` | auth.go:197-281 | The record that leaves ends in the MAC, under a key derived from the psk, of everything in front of its binders list. |
| `AuthLayout.CarrierStands` | echcarrier.go:167-200 | SetECHTicketAuth changes the random and, of the first ECH body, the payload: the ticket and then the draws. |
| `AuthLayout.FullMacStands` | echcarrier.go:69-200 | The random of the record that leaves is the MAC, under a key derived from the psk, of the whole record with the random cleared. |
| `AuthLayout.CarriersJoin` | echcarrier.go:132-144 | Each record of a pool that can carry a ticket is kept, behind the carriers of the records in front of it, and no other. |
| `AuthLayout.AgeDecides` | auth.go:297-332 | For both shapes the clock decides nothing but the age: a hello is accepted under a limit exactly when it is accepted without one and its ticket is at most that old, and then as the same client. |
| `AuthLayout.ValidatedMeans` | cover.go:179-245 | What the validators ask for and which ticket they name: the cover's name and suite; an identity and a binder of the cover's lengths, or a cover that can answer a full handshake and a payload that holds a ticket. |
| `ServerHello.FrontLayout` | serverhello.go:80-143 | Byte for byte, for a session id of 1 to 32 bytes: the headers with their lengths, 0x0303, the random, the session id echoed behind its length, the suite or 0x1301 for none, no compression, and the block's length. |
| `ServerHello.BlockLayout` | serverhello.go:80-143 | Byte for byte: supported_versions with TLS 1.3, key_share with the ML-KEM filler and the X25519 key, and unless full pre_shared_key with the selected identity, in front or behind as the cover asks. |
| `Opening.ReplyShows` | handshake.go:271-334 | A reply a server makes answers the very hello it decoded and verified: its session id echoed, the profile's suite and order, the server's key, byte for byte; and its keys rest on the ticket's psk, the secret agreed with the authenticated ephemeral, that suite, and the hello, the reply and the ChangeCipherSpec in wire order. |
| `Opening.TranscriptLayout` | conn.go:78-86 | The three payloads stand one behind the other in wire order, and nothing else. |
| `Opening.SessionBinds` | conn.go:103-149 | Refused exactly for an empty transcript or another suite; otherwise psk, secret, suite and transcript all count. |
| `Opening.TicketRecordsStand` | handshake.go:391-403 | The bodies of the two ticket records: each ticket behind its length, and the psk behind the first. |
| `RecordLayer.NonceBits` | conn.go:239-248 | The IV's first four bytes as they are; each bit of the last eight flipped exactly where the big-endian counter's bit is set. |
| `RecordLayer.RecordOnTheWire` | conn.go:297-316 | Every record, for every key, counter and content that fits one: bytes 0x17 0x03 0x03, the length of what follows, which is the padded content and 16, and behind it the payload, its type and zeros, sealed under the nonce with those five bytes as additional data. |
| `Delivery.PieceOnTheWire` | conn.go:262-333 | In every schedule, each socket write that went through is one such record under the next number, and each that failed a front of one. |
| `Alone.WriteMatches` | conn.go:262-295 | A Write that runs by itself takes steps of the concurrent model and ends where the method ends: the same buffer, counter, socket bytes and failure. |
| `Alone.SizedMatches` | conn.go:322-333 | So does writeSized: one handshake record of the length asked for, or nothing for contents or lengths that do not fit. |
| `Alone.CloseMatches` | conn.go:419-424 | So does the first Close: one close_notify in a record of 24 bytes, then a closed socket. |
| `Alone.QueuedIsWritten` | conn.go:262-276 | In every schedule the bytes the delivery theorems speak of are those given to Write, all of them and in the order the mutex was taken. |
| `WireView.FlushSeen` | conn.go:262-316 | What a write that goes through puts on the socket splits, at record headers, into exactly the shaper's cuts of the buffer's length, whatever was written. |
| `WireView.ServerSeen` | handshake.go:304-403 | The server's side of an opening, split by the probe's own splitter: a handshake record of the measured ServerHello length, a ChangeCipherSpec, one record of each length the profile gives, two of 370 bytes, and no byte left over. |
| `WireView.ClientSeen` | handshake.go:181-236 | The client's side: its hello, a ChangeCipherSpec and one record of the profile's length. |
| `Shaping.AnswersExactly` | shaping.go:92-110 | The shaper's answer at every count: all of it in the least measured length that holds it; a full record from 16384 bytes on; in between exactly one record of the largest measured length below the maximum. |
| `Shaping.CutsExactly` | shaping.go:92-110 | A stream of n bytes leaves in n / 16384 full records and then none, one or two more, as the rest asks. |
| `Shaping.PlainIsExact` | shaping.go:62-69 | The plain shaper takes all there is up to 16384 bytes and pads nothing. |
| `Recorder.SplitPlaces` | harvest/coverprobe/coverprobe.go:240-256 | Every record kept is the one that stands there by its own first byte and its own length field, one behind the other from the first byte on. |
| `Recorder.SplitLeaves` | harvest/coverprobe/coverprobe.go:240-256 | What is left begins behind the last of them and is too short for its header or for its length. |
| `Replay.RecordIsLast` | replay.go:100-146 | What the cache holds of a client dates from its last accepted call: activity time, newest ticket and its hash. |
| `Replay.DropsLeastRecent` | replay.go:137-176 | When the backstop fires it drops a client whose last accepted call read the earliest clock of all clients still held. |
| `Distinguishing.FormMeans` | harvester.go:272-323 | Two hellos have one canonical form exactly when version, compression, session id length and suites up to GREASE agree and their extensions correspond one to one, types up to GREASE: any body for a name, kind and HPKE ids for ECH, groups and lengths for key_share, values up to GREASE for three lists, every byte for any other type. |
| `Distinguishing.DecodedForms` | harvester.go:255-323 | The same for any two records the parser takes. |
| `Distinguishing.ExtsAlike` | harvester.go:290-313 | One extension: its canonical form is another's exactly when the two agree in what the emitter does not redraw. |
| `Distinguishing.FingerprintMeans` | source.go:357-443 | With as many suites and compression methods each, two hellos have one fingerprint input exactly when version, suites, compression and the types and lengths of the extensions agree, GREASE folded and ECH lengths left out. |
| `Distinguishing.BoundaryMoves` | source.go:357-388 | Without those counts they need not: for any hello with null compression there are two that offer different suites and share a fingerprint input. |
| `Samples.FingerprintConfuses` | source.go:357-388 | Two usable records that offer different suites and share a fingerprint input. |
| `Screening.SanitizedExactly` | source.go:317-346 | Sanitize field by field: random and session id cleared at their lengths, pre_shared_key and early_data gone, session_ticket emptied, the first server_name holding as many x as the name had bytes, and every other extension kept, in order. |
| `Screening.SanitizeNeedsName` | source.go:317-346 | It fails for want of a server_name and for nothing else. |
| `Screening.NameLands` | hello.go:211-225 | SetSNI succeeds exactly when there is a server_name and the name fits; the first takes it, lengths and type byte included, and nothing else of the hello changes. |
| `Screening.ScreenedMeans` | harvester.go:81-103 | A screened record is the encoding of the sanitised hello, parses back to it, and is usable. |
| `Screening.KeysMean` | harvester.go:255-262 | With a hash that tells the two forms apart, two records have one key exactly when what they contribute is the same. |
| `Screening.BuildsMean` | harvester.go:235-241 | With as many suites and methods each, and a hash that tells their fingerprints apart, two records are of one build exactly when those agree. |
| `Screening.DuplicatesAreSame` | harvester.go:105-109 | A record counts as held exactly when one that contributes the same is in the pool. |
| `PoolContents.GroupPlaces` | source.go:165-190 | A group is all the records of its build, once each and in order. |
| `PoolContents.HeldChangesNothing` | harvester.go:105-109 | A record whose key is in the pool is refused and changes nothing. |
| `PoolContents.JoinKeepsLatest` | harvester.go:121-137 | A record of the pool's build joins it at its end; of the pool and the record the latest max stay, in order. |
| `PoolContents.OtherBuildOffered` | harvester.go:139-177 | A record of another build takes over exactly when its build has as many samples held aside as the pool; the pool is then the latest max of those and the record, in order, and nothing is held aside. |
| `PoolContents.AsideKeeps` | harvester.go:204-230 | What is held aside keeps all records and the new one, or past the bound all but the first of the smallest build, ties to the smaller fingerprint. |
| `PoolContents.AcceptedIsLast` | harvester.go:81-177 | From any file, at every point of every sequence of offers: exactly which offer is accepted; then the pool ends in it, and an offer that is not accepted leaves the pool as it was. |
| `PoolContents.LoadsFirst` | harvester.go:53-70 | The records loaded from a file are records that parse, in its order and without repeated keys; none that parses is missing unless its key was loaded before it or the pool was full by then. |
| `Alone.FedDelivers` | conn.go:338-406 | Fed the sealed records one by one, the peer of the concurrent model delivers exactly what they carry, in order and without failing, up to the first close_notify. |
| `Alone.FedAlert` | conn.go:392-406 | The close_notify ends it with everything in front of it delivered. |
| `Replay.OthersStay` | replay.go:100-176 | At any call another client is forgotten only at its horizon, or by the backstop, which fires only for a client not held and only when the set is full; else its record stays as it is, and none appears. |
| `AuthLayout.ResumedVerifies` | auth.go:297-332 | What verifyAt accepts, and as whom, both ways: a ticket that opens and is not too old, a binder of 32 or 48 bytes that is the MAC of the rebuilt and truncated hello, and a readable key. |
| `AuthLayout.FullVerifies` | echcarrier.go:212-253 | What verifyECHAt accepts, and as whom, both ways: no pre_shared_key, a ticket at the front of the first ECH payload, a random that is the MAC of the record with the random cleared, and a readable key. |
| `Opening.ClientStartsOn` | handshake.go:181-219 | What a client starts on: its stream is the reply, a ChangeCipherSpec of one byte 0x01 and the rest; its keys rest on its psk, the secret agreed with the reply's key, its suite, and hello, reply and that byte in order. |

## Left out

- Cryptographic strength, and any claim about what an observer can tell apart: idealised as above.
- Error texts: a failure is `None`, `false` or null.
- Sockets, deadlines and addresses: a socket is an append-only wire with a failure oracle, and an inbox.
- Pool files, hex text, the choice between pool tiers, and the embedded pool: the pool is modelled in memory.
- The command-line tools, the TLS probe and the Python scripts.
- `CoverFor`, `Valid` and the host-name syntax: a cover is what its validators read, with the case-insensitive
  host comparison as a predicate. The burst totals of a cover are sums nobody branches on.
- `Client`'s choice between the shapes and its degradation without carriers, and the uniform pick from the
  pool: the chosen record and shape are arguments of the pipeline.
- The redraw loop that makes the two GREASE ends differ: its two draws are arguments that differ.
- `Conn` under concurrent use is modelled by the step system of `Interleaving`; the class in `ConnObject`
  covers one caller at a time, so it has neither mutex.
- Concurrent Reads: the read mutex is held for a whole Read, so the peer is one sequential reader.
- Blocking for ever in a socket write: in `Interleaving` every socket write returns.
- Dates before 1970 and the saturation of time differences at 292 years.
- DevicePool.AlwaysSound: a file of several builds is loaded as it is and its pool stays mixed until an offer promotes a build; until then only DevicePool.AlwaysBounded is claimed.
- Contacts.ResumeIsVouched: assumes fewer than 2^64 events, after which the generation counter repeats.
