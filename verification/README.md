# OpenVPN: data channel keys, replay protection and text formats

A Dafny model of parts of OpenVPN together with proofs about it. `dafny verify dfyconfig.toml` checks all of it.

**Data channel.** Each peer keeps a chain of epoch keys per direction, a sliding array of future receive keys, a
retiring receive key with a replay record of its own, a packet counter that restarts with every send key, and counters
for usage and for failed verifications. `EpochKeys` and `DataChannel` say on values what initialisation, sending and
receiving compute and which invariant every step keeps; `CryptoEpoch` is the imperative code over mutable fields and
the future-key array, with two replay records that share nothing, proved to compute exactly that. The assertions
crypto_epoch.c makes about its key state are proved assertions there; those of crypto.c about buffers and cipher
contexts are not modelled. `TwoPeers` puts two peers on a network that loses, reorders, duplicates and forges packets
and proves safety of whole runs; `PeerHistory` says what counters and replay records mean in terms of the run, and
`SendHistory` which epoch and counter the next packet carries. HMAC, AEAD and the hash of the TLS 1.0 PRF are function-valued parameters, so nothing depends on what they compute; of an AEAD it is only asked that
opening undoes sealing, that tags have 16 bytes, and that ciphertext and plaintext have the same length.

**Replay protection.** `PacketId` has the sliding window on values and proves it equal to a full history of accepted
packets; `ReplayRecord` is the circular list and the record built on it.

**Around it.** `KeyExpansion` (section 2.3 of RFC 5869, section 5 of RFC 4346), `AeadFraming` (IV and packet layout),
`Base64` (section 4 of RFC 4648), `AuthToken` (issuing, renewing and verifying tokens), `HexFormat` (hex dump),
`StaticKey` (key file writer and reader), `Checksum` (RFC 1624), `DhcpOptions` and `SearchDomains` (RFC 2132,
RFC 3397), `ClientNat`, `Argv` and `BufferList`. `Octets` holds bytes and big-endian numbers.

Loops and in-place updates of the C code are methods with loops over arrays, circular lists and linked entries; each is
proved equal to a function on values, and the properties are lemmas about these functions. Several proofs are stated for
an arbitrary function (`Hit` and `Move` in `ClientNat`, `Removal` in `DhcpOptions`, `Marks` in `StaticKey`, the quad
encoder in `Base64`) and then applied to the one the program uses.

Where the code does not have a property in general, one lemma gives an input on which it fails and another the exact
condition:

- replay marks: `PacketId.EarlyClockForgets`, `PacketId.MarkedIffClockRuns`
- base64 text: `Base64.SpareBitsAreLost` and `Base64.ForeignTailIsLost`, `Base64.EncodeOfDecode`
- DHCP options kept: `DhcpOptions.PaddingCompletesOption`, `DhcpOptions.KeepsExactlyIff`
- DHCP message type: `DhcpOptions.PaddingMakesUpType`, `DhcpOptions.MessageTypeKept`
- search domain names: `SearchDomains.LongLabelIsLost` and `SearchDomains.TrailingDotIsLost`,
  `SearchDomains.DecodeOfEncode`
- search domain buffer: `SearchDomains.EdgeExample`, `SearchDomains.TempUseBounded`
- client NAT: `ClientNat.SharedForeignNetworkIsLost`, `ClientNat.RewriteBack`
- UDP packets without a checksum: `ClientNat.MissingChecksumIsFilledIn`, `ClientNat.TranslateWithoutChecksum`
- bounded hex dumps: `HexFormat.JustFittingIsMarked`, `HexFormat.DumpWholeIff`

## Model

| member | source | states |
|---|---|---|
| TwoPeers.EpochsOrdered | src/openvpn/crypto.h:292-335 | in every reachable state of two peers the receive epoch is at most the peer's send epoch and at most the own send epoch |
| TwoPeers.LookupFindsSenderKey | src/openvpn/crypto_epoch.c:373-409 | whatever key lookup returns for a packet the peer sent is the data key the sender derived for that epoch, and the packet was sealed with it, in every reachable state |
| TwoPeers.NoNonceReuse | src/openvpn/crypto.c:65-194 | over any run, epoch and counter of sent packets strictly increase, and no pair of data key and IV repeats |
| TwoPeers.DeliveredAtMostOnceAsSent | src/openvpn/crypto.c:375-424 | every delivered payload was sent by the peer under that epoch and counter, and no epoch and counter is delivered twice in a run, although records move from current to retiring to discarded |
| TwoPeers.FateOfSentPacket | src/openvpn/crypto.c:434-605 | for a genuine packet arriving anywhere in a run, exactly which outcome it has: unknown epoch, locked key, no room, replay, or delivery of the original payload |
| TwoPeers.UsageNeverExceeded | src/openvpn/crypto_epoch.c:412-459 | below the last epoch, blocks plus counter under one send key never exceed limit + 1 + the blocks of a largest packet |
| TwoPeers.StepKeeps | src/openvpn/crypto_epoch.c:202-459 | every step of either peer keeps the joint invariant of both |
| TwoPeers.InitKeeps | src/openvpn/crypto_epoch.c:352-371 | initialisation with shared first secrets establishes the joint invariant |
| TwoPeers.ArriveFollows | src/openvpn/crypto.c:375-424 | a receiver only follows: after any arrival its epoch is still covered by the peer's send epoch and its deliveries by what the peer sent |
| TwoPeers.SendIsPossible | src/openvpn/crypto.c:65-194 | after any run either peer can be asked to send any nonempty payload; a packet with it goes out if and only if the buffer has room and the last counter of the last epoch is not used up |
| TwoPeers.SentMayArrive | src/openvpn/crypto.c:434-605 | after any run every packet ever sent can arrive, late, out of order or again; the no-forgery assumption excludes none of them |
| TwoPeers.FirstPacketDelivered | src/openvpn/crypto.c:65-605 | for every configuration, a first packet that fits both buffers goes out under epoch 1 and counter 1 and is delivered with its payload |
| TwoPeers.ConfigExists | src/openvpn/crypto_epoch.c:352-371 | there is a cipher that meets what is asked of one, for all secrets and all admissible settings of either peer |
| PeerHistory.FailuresAreBadTags | src/openvpn/crypto.c:501-588 | in every reachable state the failure count of every live key is the number of wrong tags that arrived under its epoch, at most 2^36 + 1 |
| PeerHistory.FateByDelivery | src/openvpn/crypto.c:434-605 | the fate of every packet of the peer in terms of the run: its epoch is unknown unless it is one that the authentic arrivals have brought within reach, its key is locked after 2^36 + 1 wrong tags, and it is a replay exactly if its counter was delivered, is a window's length behind the highest delivered, or has expired; without a window, if it is not the next one |
| PeerHistory.RunExplained | src/openvpn/crypto.c:375-424 | the replay record of an epoch is what its authentic arrivals make of a new record, through promotion and retirement, and the ids it let through are those delivered |
| PeerHistory.RunReaches | src/openvpn/crypto_epoch.c:284-335 | in every reachable state the current and the retiring receive epoch are the last two that authentic packets of ever higher epochs have led to, and the window has its full length |
| PeerHistory.EdgeIsNeverCrossed | src/openvpn/crypto_epoch.c:373-409 | over any run the receive epoch never moves beyond 65535 - N - 1, and nothing is delivered under a higher one |
| PeerHistory.DeliveredMeans | src/openvpn/crypto.c:375-424 | the counters delivered under an epoch are those of the packets delivered under it |
| SendHistory.NextPacket | src/openvpn/crypto_epoch.c:412-459 | after any run, exactly which epoch and counter the next packet carries: the next epoch and counter 1 if and only if there is a next epoch and the packets sent under the present one exceed the limit, or it equals the receive epoch and what was delivered since that was reached exceeds the limit or more than 2^35 wrong tags arrived under it, or the counter is used up; else the present epoch and the next counter |
| SendHistory.RunAccounted | src/openvpn/crypto.c:65-605 | in every reachable state the send counter is how often the peer was asked to send under its epoch, the block count of the send key is the blocks of the packets sent under it, and that of the receive key the blocks delivered since it became current |
| SendHistory.SentWithinLimit | src/openvpn/crypto_epoch.c:412-459 | below the last epoch, the packets sent under the present one exceed the limit by at most one packet |
| SendHistory.DeliverCharges | src/openvpn/crypto.c:590-593 | a delivered payload is charged to the key that is current then, from zero if the packet has just made it current |
| EpochKeys.InitInv | src/openvpn/crypto_epoch.c:352-371 | the initial state has the invariant: future[i] has epoch decrypt + 1 + i, the receive chain stands at decrypt + N, all keys are those of their epochs |
| EpochKeys.CheckSendIterateInv | src/openvpn/crypto_epoch.c:412-459 | checking and stepping the send key keeps the invariant and never wraps the epoch |
| EpochKeys.CatchUpSendInv | src/openvpn/crypto_epoch.c:306-320 | catching the send chain up to a received epoch keeps the invariant and lands on that epoch |
| EpochKeys.ReplaceRecvKeyInv | src/openvpn/crypto_epoch.c:284-335 | promotion of a future key with window shift, refill and retirement keeps the invariant |
| EpochKeys.FreshKeysGood | src/openvpn/crypto_epoch.c:202-273 | the keys appended to the window are the data keys of exactly the following epochs |
| EpochKeys.IterateToOnChain | src/openvpn/crypto_epoch.c:123-137 | stepping a chain to an epoch gives the secret that is the iterate of the first one |
| EpochKeys.NextBytes | src/openvpn/crypto_epoch.c:76-137 | the next secret, by the very bytes that are hashed for it |
| EpochKeys.DeriveBytes | src/openvpn/crypto_epoch.c:139-166 | cipher key and implicit IV, by the very bytes that are hashed for them |
| DataChannel.WirePidRoundTrip | src/openvpn/packet_id.c:653-694 | 16 bits of epoch and 48 bits of counter are read back as written |
| DataChannel.WirePidBytes | src/openvpn/packet_id.c:653-694 | two bytes of epoch stand in front of six bytes of counter, high bytes first |
| DataChannel.EncryptInv | src/openvpn/crypto.c:65-194 | sending keeps the invariant |
| DataChannel.DecryptInv | src/openvpn/crypto.c:434-605 | receiving any bytes keeps the invariant |
| DataChannel.CheckReplayInv | src/openvpn/crypto.c:375-424 | the replay check with key replacement keeps the invariant |
| DataChannel.LookupGood | src/openvpn/crypto_epoch.c:373-409 | lookup finds a context of exactly the epoch asked for, holding that epoch's key |
| DataChannel.CheckAdvancesOnce | src/openvpn/crypto_epoch.c:412-459 | one check moves the send epoch by at most one |
| DataChannel.ReceivePressureBounded | src/openvpn/crypto_epoch.c:412-459 | pressure from the receive side alone takes the send epoch at most one above the receive epoch |
| DataChannel.EncryptUsage | src/openvpn/crypto.c:65-194 | after every packet the usage of the send key is within limit + 1 + the blocks of that packet, unless the last epoch is reached |
| DataChannel.EncryptOrder | src/openvpn/crypto.c:87-135 | a packet's epoch and counter come strictly after all positions used before and are the new position |
| DataChannel.EncryptGoesOut | src/openvpn/crypto.c:65-194 | a packet results if and only if the buffer has room and a counter is left |
| DataChannel.UnauthenticatedChangesNothing | src/openvpn/crypto.c:570-588 | a packet that is not authenticated changes nothing at all, except that a wrong tag adds one to the failure count of the key it was tried with |
| DataChannel.FailuresFollowEpoch | src/openvpn/crypto.c:501-588 | the failure count belongs to the epoch: it survives shifts, promotion and retirement, goes up by one exactly for a wrong tag under that epoch, and stays at most 2^36 + 1 |
| DataChannel.GenuineVerdict | src/openvpn/crypto.c:434-605 | the exact outcome of opening a packet sealed with the key of its epoch |
| AeadFraming.PacketIvInjective | src/openvpn/crypto.c:65-135 | under one key, different packet ids give different IVs |
| AeadFraming.PacketIvUnmasks | src/openvpn/crypto.c:96-129 | for both lengths of packet ids, masking the IV again with the implicit IV uncovers the padded packet id |
| AeadFraming.PacketIvTellsKeysApart | src/openvpn/crypto.c:96-129 | under one packet id, different implicit IVs give different IVs |
| AeadFraming.ShortIvConcatenates | src/openvpn/crypto.c:963-992 | with a 4 byte packet id, masking equals writing the id in front of the implicit IV |
| AeadFraming.FrameRoundTrip | src/openvpn/crypto.c:65-194 | in both layouts, opening a sealed packet gives the payload back and the packet is longer by exactly the computed overhead |
| AeadFraming.TagAt | src/openvpn/crypto.c:147-182 | the tag is at the end in the epoch format and right behind the packet id in the other |
| AeadFraming.OtherHeaderRefused | src/openvpn/crypto.c:146-148 | where the cipher opens a packet under no other additional data, it opens behind its own header and no other |
| CryptoEpoch.EpochKeyIterate | src/openvpn/crypto_epoch.c:123-137 | the step of the chain is the expansion of the secret under its label, and the epoch goes up by one |
| CryptoEpoch.EpochDataKeyDerive | src/openvpn/crypto_epoch.c:139-166 | data key and implicit IV are the expansions under their two labels |
| CryptoEpoch.BuildIv | src/openvpn/crypto.c:65-135 | copying and XORing in place builds the IV, the packet id masked with the implicit IV |
| CryptoEpoch.CryptoOptions.constructor | src/openvpn/crypto_epoch.c:352-371 | initialisation with two new, separate replay records gives the initial state of the value model |
| CryptoEpoch.CryptoOptions.IterateSend | src/openvpn/crypto_epoch.c:275-282 | the send chain and context move on by one epoch |
| CryptoEpoch.CryptoOptions.CheckSend | src/openvpn/crypto_epoch.c:412-459 | the check computes the value model's send step, whose effect on packets is SendHistory.NextPacket |
| CryptoEpoch.CryptoOptions.LookupDecryptKey | src/openvpn/crypto_epoch.c:373-409 | the search over current, retiring and future keys finds the slot of the value model |
| CryptoEpoch.CryptoOptions.GenerateFutureReceiveKeys | src/openvpn/crypto_epoch.c:202-273 | shifting the array and filling its end in place gives the window of the value model; all assertions hold |
| CryptoEpoch.CryptoOptions.PromoteFutureKey | src/openvpn/crypto_epoch.c:322-335 | the current key retires, the future key becomes current, its slot is cleared, and the window slides |
| CryptoEpoch.CryptoOptions.RetireRecord | src/openvpn/crypto_epoch.c:325 | the retiring record takes over list and state of the current one, which starts anew; the two still share nothing |
| CryptoEpoch.CryptoOptions.CatchUp | src/openvpn/crypto_epoch.c:306-320 | the send chain is brought up to the new receive epoch |
| CryptoEpoch.CryptoOptions.ReplaceUpdateRecvKey | src/openvpn/crypto_epoch.c:284-335 | the whole replacement, of keys and of both record objects, computes that of the value model, and its assertions hold in every reachable state |
| CryptoEpoch.CryptoOptions.CheckReplayOf | src/openvpn/crypto.c:375-424 | updates the right one of the two records in place, after the replacement for a future epoch, as the value model says |
| CryptoEpoch.CryptoOptions.EncryptAead | src/openvpn/crypto.c:65-194 | the packet and the state after sending are those of the value model |
| CryptoEpoch.CryptoOptions.DecryptAead | src/openvpn/crypto.c:434-605 | the verdict and the state after receiving are those of the value model |
| PacketId.AtMostOnce | src/openvpn/packet_id.c:136-311 | in any run of additions and expiries, with or without a window, no packet id is accepted twice, provided the clock is past its first second or there is no window |
| PacketId.MarkedIffClockRuns | src/openvpn/packet_id.c:136-181 | for every record and id: an accepted id is blocked from then on, and refused when it comes again at once, if and only if the clock was past its first second or there is no window |
| PacketId.EarlyClockForgets | src/openvpn/packet_id.c:136-181 | with a window and a clock at 0 or 1 the same id is accepted twice |
| PacketId.PassesIffNew | src/openvpn/packet_id.c:188-311 | after any run of packets with one time stamp, in both modes, which ids pass: said by the ids let through, the highest of them, the window's length and what has expired |
| PacketId.WindowIsExact | src/openvpn/packet_id.c:136-311 | for every run, the window decides on every packet as the full history of accepted packets would |
| PacketId.TestIsIsNew | src/openvpn/packet_id.c:219-311 | the test agrees with being new in the history |
| PacketId.AddIsRecord | src/openvpn/packet_id.c:136-181 | adding keeps window and history in step |
| PacketId.ReapIsForget | src/openvpn/packet_id.c:188-213 | expiry raises the history's mark of forgotten ids by exactly the expired ones |
| PacketId.AddKeepsBlocked | src/openvpn/packet_id.c:136-181 | adding another id never unblocks one |
| PacketId.ReapKeepsBlocked | src/openvpn/packet_id.c:188-213 | expiry never unblocks an id |
| ReplayRecord.SeqList.Push | src/openvpn/circ_list.h:30-69 | pushing on the circular list puts the item in front and drops the oldest when full |
| ReplayRecord.SeqList.Expire | src/openvpn/packet_id.c:188-213 | the loop over the list marks the stale end and nothing else |
| ReplayRecord.PacketIdRec.TestId | src/openvpn/packet_id.c:219-311 | the test on the list computes that of the value model and changes nothing |
| ReplayRecord.PacketIdRec.AddId | src/openvpn/packet_id.c:136-181 | restart, gap filling and marking on the list compute the value model's addition |
| ReplayRecord.PacketIdRec.ReapIds | src/openvpn/packet_id.c:188-213 | expiry on the list computes that of the value model |
| ReplayRecord.PacketIdRec.CheckId | src/openvpn/packet_id.h:333-340 | expiry when due, test and addition in one, as in the value model |
| ReplayRecord.PacketIdRec.MoveFrom | src/openvpn/packet_id.c:108-123 | the record takes over the other's list and state and leaves a new record behind |
| KeyExpansion.HkdfExpand | src/openvpn/crypto_epoch.c:41-74 | writes the first min(L, 255 * 32) octets of T(1), T(2), ... and touches nothing behind them |
| KeyExpansion.ExpandChains | src/openvpn/crypto_epoch.c:41-74 | every 32 octets of the output are the keyed hash of the 32 octets in front of them, the info and their number |
| KeyExpansion.OvpnExpandLabel | src/openvpn/crypto_epoch.c:76-116 | fills its info buffer exactly with length, label and context and expands the secret with it, for every output length; refuses, and writes nothing, if and only if secret, label or context has a wrong length |
| KeyExpansion.HkdfLabelReads | src/openvpn/crypto_epoch.c:76-116 | the info reads back, by its own length octets, as output length, prefixed label and context (section 7.1 of RFC 8446) |
| KeyExpansion.HkdfLabelInjective | src/openvpn/crypto_epoch.c:76-116 | the info determines length, label and context |
| KeyExpansion.PHash | src/openvpn/crypto_mbedtls.c:838-899 | writes the first octets of the P_hash stream for every length |
| KeyExpansion.PStreamBlock | src/openvpn/crypto_mbedtls.c:838-899 | every block of the output is the hash of a link of the chain that starts at the seed, and the seed |
| KeyExpansion.Tls1Prf | src/openvpn/crypto_mbedtls.c:920-955 | the output is the XOR of both P_hash streams over the two halves of the secret, which overlap by one byte when its length is odd |
| KeyExpansion.HalvesCover | src/openvpn/crypto_mbedtls.c:920-955 | both halves have the same length and together are the secret but for a middle octet they share |
| Base64.Base64Encode | src/openvpn/base64.c:50-101 | the loop writes the encoding, and all writes fit the allocation of size * 4 / 3 + 4 |
| Base64.EncodeThree | src/openvpn/base64.c:50-101 | three bytes are written as the four digits to base 64 of their 24 bits |
| Base64.EncodeTwo | src/openvpn/base64.c:70-98 | two bytes at the end are written as three digits and a pad |
| Base64.EncodeOne | src/openvpn/base64.c:70-98 | one byte at the end is written as two digits and two pads |
| Base64.AlphabetIs | src/openvpn/base64.c:43 | the 64 letters in full |
| Base64.FindPos | src/openvpn/base64.c:103-114 | linear search gives the value of a letter, -1 for any other character |
| Base64.TokenDecode | src/openvpn/base64.c:118-153 | the packed value of four characters, an error where there are fewer or they are no group; the terminator is never passed |
| Base64.Base64Decode | src/openvpn/base64.c:159-202 | the decoding up to the first character that cannot start a group; fails on a broken group or when it would write more than `size` bytes |
| Base64.DecodeOfEncode | src/openvpn/base64.c:159-202 | decoding what was encoded gives all byte strings back |
| Base64.EncodeOfDecode | src/openvpn/base64.c:50-202 | for every text: it decodes and encodes back to itself if and only if it consists of whole groups, pads stand only at the end and cut off no set bits |
| Base64.SpareBitsAreLost | src/openvpn/base64.c:159-202 | "QR==" decodes but does not encode back to itself |
| Base64.ForeignTailIsLost | src/openvpn/base64.c:159-202 | behind whole groups, a character outside the alphabet silently ends the decoding |
| Base64.EncodeConcat | src/openvpn/base64.c:50-101 | encoding distributes over concatenation when the first part is a multiple of three bytes, and that part's text is unpadded |
| Base64.DecodeConcat | src/openvpn/base64.c:159-202 | decoding distributes over concatenation when the first part is unpadded |
| Base64.EncodeLength | src/openvpn/base64.c:50-101 | four characters for every three bytes begun |
| Base64.DecodedLength | src/openvpn/base64.c:159-202 | at most three bytes for four characters |
| AuthToken.TokenSlices | src/openvpn/auth_token.c:184-198 | session id and initial time stamp lie on group boundaries of the token text and are sliced out exactly |
| AuthToken.TlsMulti.GenerateAuthToken | src/openvpn/auth_token.c:160-271 | appends a token with the present time to the session's chain; all tokens since the last wipe carry the first one's session id and initial time, read back out of its text |
| AuthToken.TlsMulti.ReadInitial | src/openvpn/auth_token.c:175-199 | slicing and decoding the first token's text gives its session id and time stamp; both decoding assertions hold |
| AuthToken.TlsMulti.VerifyAuthToken | src/openvpn/auth_token.c:290-395 | flags and resulting user name for every password with the prefix and every stored token, under the name given or, failing that, under the empty one |
| AuthToken.TlsMulti.WipeAuthToken | src/openvpn/auth_token.c:397-415 | forgets the session's tokens |
| AuthToken.IssuedTokenVerifies | src/openvpn/auth_token.c:290-395 | a token presented by its user is accepted under that name, and counts as expired exactly outside [ts, ts + 2 * renewal), past its lifetime, or when renewed before it began |
| AuthToken.PresentedToken | src/openvpn/auth_token.c:290-395 | whoever presents a token of the session: accepted under the name given if that has its MAC, else with the name emptied if the empty name has it, else rejected |
| AuthToken.EmptyUserTokenVerifies | src/openvpn/auth_token.c:332-338 | a token issued for the empty name is accepted from any other name, which is emptied, and the result says so; it expires like any other |
| AuthToken.RenewalNeverExtendsLifetime | src/openvpn/auth_token.c:290-395 | no token of a renewal chain verifies unexpired after the first one's time plus the lifetime |
| AuthToken.MacInputInjective | src/openvpn/auth_token.c:274-288 | the MAC's input determines the user name and the signed bytes |
| AuthToken.VerifiedWasIssued | src/openvpn/auth_token.c:290-395 | if the MAC was not forged, what verifies carries the claims of a token issued to the resulting user name |
| AuthToken.SessionIdCannotChange | src/openvpn/auth_token.c:382-393 | while a session holds a token, whatever verifies carries that token's session id |
| HexFormat.FormatHexEx | src/openvpn/buffer.c:482-510 | without a bound the whole dump; with one, the dump as far as it fits, its end overwritten with the mark once less than two bytes are free |
| HexFormat.DumpFitsAllocation | src/openvpn/buffer.c:482-510 | the computed allocation holds the whole dump and two bytes more, so it is never marked as cut off |
| HexFormat.DumpHasLength | src/openvpn/buffer.c:482-510 | the length of a dump: two digits a byte and a separator for every whole block in front of the last byte |
| HexFormat.DumpAt | src/openvpn/buffer.c:482-510 | where in the dump the two digits of each byte stand, and the separators in front of blocks |
| HexFormat.DigitsAre | src/openvpn/buffer.c:500-507 | the sixteen digits in either case |
| HexFormat.DumpWholeIff | src/openvpn/buffer.c:287-298 | a dump into a buffer of given size comes out whole if and only if, by the size of the data, two bytes stay free or it fills a buffer too small for the mark |
| HexFormat.JustFittingIsMarked | src/openvpn/buffer.c:287-298 | the dump of any six bytes just fits 13, but only its first three digits are left in front of the mark |
| HexFormat.BufPrintf | src/openvpn/buffer.c:240-266 | appends as much as fits in front of the terminator and says whether that was all |
| HexFormat.FromHexOfHex2 | src/openvpn/buffer.c:500-507 | the two digits of a byte, in either case, read back as the byte |
| StaticKey.WriteKeyFile | src/openvpn/crypto.c:1555-1611 | the file text for any keys; for one or two keys it fits the 2048 byte buffer |
| StaticKey.KeyLineAt | src/openvpn/crypto.c:1555-1611 | sixteen bytes a line, each as two lower-case digits, and a line break between lines |
| StaticKey.DecimalReads | src/openvpn/crypto.c:1555-1611 | the number of bits in the comment is written in decimal digits that read back as it |
| StaticKey.StaticKeyHeaderSeen | src/openvpn/crypto.c:1410-1501 | over arbitrary text the reader leaves its initial state if and only if some line begins with the header of a static key |
| StaticKey.HeaderSeen | src/openvpn/crypto.c:1410-1501 | the same for any header line; before it, the reader counts exactly the agreeing characters of the current line |
| StaticKey.Feed | src/openvpn/crypto.c:1410-1501 | every character keeps the reader's invariant: at most 256 bytes of key material, none before the header, fewer than 256 while data is expected |
| StaticKey.ReadKeyFile | src/openvpn/crypto.c:1352-1553 | the loop with its buffer computes the reader's result and never writes behind the buffer |
| StaticKey.ReadChar | src/openvpn/crypto.c:1413-1500 | the body of the loop computes one step of the reader on the buffer |
| StaticKey.WriteAndRead | src/openvpn/crypto.c:1352-1611 | writing one or two keys and reading the text back leaves exactly these keys, and zeros behind them, in the buffer |
| StaticKey.StaticKeyRoundTrip | src/openvpn/crypto.c:1352-1611 | reading a printed file gives back the one or two keys, from a file or inline, with all checks on |
| StaticKey.ReadOfPrint | src/openvpn/crypto.c:1352-1611 | the same for any pair of enclosing lines that begin with a dash |
| StaticKey.RunPrint | src/openvpn/crypto.c:1410-1501 | on a printed file the reader ends in its finished state holding exactly the printed bytes |
| StaticKey.StaticKeyNeedsHeader | src/openvpn/crypto.c:1503-1524 | a mandatory read that succeeds found a header line and one or two keys |
| DhcpOptions.GetDhcpMessageType | src/openvpn/dhcp.c:35-73 | the loop finds the type of the first message type option among the parsed options |
| DhcpOptions.MessageTypeOf | src/openvpn/dhcp.c:35-73 | for any list of options on the wire, the byte of the first option 53 if it has exactly one, else -1 |
| DhcpOptions.DoExtract | src/openvpn/dhcp.c:75-145 | terminates for every byte string, leaves exactly the specified area, and returns the first nonzero router address among the options seen |
| DhcpOptions.ExtractFirstAddress | src/openvpn/dhcp.c:75-145 | for any list of options on the wire, the address returned is a.b.c.d of the first router option that holds whole addresses and does not begin with 0.0.0.0; 0 if there is none |
| DhcpOptions.RemoveRouters | src/openvpn/dhcp.c:75-145 | the loop carries out any removal that obeys the rules for pads, routers, other options and ends |
| DhcpOptions.DeleteOption | src/openvpn/dhcp.c:107-120 | moving and padding in place deletes the option and pads the end |
| DhcpOptions.ShiftedShrinks | src/openvpn/dhcp.c:75-145 | a deletion leaves strictly fewer nonzero bytes, which makes the loop end |
| DhcpOptions.ExtractKeepsOthers | src/openvpn/dhcp.c:75-145 | for every byte string, the options afterwards are exactly the other options seen, in order |
| DhcpOptions.KeepsExactlyIff | src/openvpn/dhcp.c:75-145 | the other options always stay in order as the first ones; they are exactly what remains if and only if the area does not end in a truncated option of another kind that the freed room completes |
| DhcpOptions.PaddingCompletesOption | src/openvpn/dhcp.c:75-145 | the area 3, 0, 12 holds one more option after the removal |
| DhcpOptions.WellFormedSeen | src/openvpn/dhcp.c:75-145 | in an area with an end marker or without truncation, the options seen are the options parsed |
| DhcpOptions.ExtractMovesTail | src/openvpn/dhcp.c:107-120 | the end marker and all that follows it only move to the front |
| DhcpOptions.ExtractChangesIffRouter | src/openvpn/dhcp.c:75-145 | the area is unchanged if and only if it holds no complete router option |
| DhcpOptions.ExtractIdempotent | src/openvpn/dhcp.c:75-145 | no complete router option remains before the end marker; a second run changes nothing and finds no address |
| DhcpOptions.MessageTypeKept | src/openvpn/dhcp.c:35-145 | a message type found before is found unchanged; without one, type 0 appears exactly if the area ends in a message type option without data and a router option was removed |
| DhcpOptions.PaddingMakesUpType | src/openvpn/dhcp.c:35-145 | the area 3, 0, 53, 1 has no message type before the removal and type 0 after it |
| DhcpOptions.ParseOfSerialize | src/openvpn/dhcp.c:35-73 | parsing reads back serialized options in front of an end marker |
| SearchDomains.WriteName | src/openvpn/dhcp.c:286-308 | writing characters and filling in label lengths afterwards gives the length-prefixed labels and a zero |
| SearchDomains.WriteDhcpSearchStr | src/openvpn/dhcp.c:268-327 | succeeds if and only if the encoding has at most 255 bytes and fits the buffer, and then appends exactly type, length and encoding |
| SearchDomains.DecodeOfEncode | src/openvpn/dhcp.c:268-327 | the written option decodes to the same list of names if and only if every label has length 1 to 63 |
| SearchDomains.LongLabelIsLost | src/openvpn/dhcp.c:268-327 | a name of one label of 64 to 253 characters is written but does not decode to itself |
| SearchDomains.TrailingDotIsLost | src/openvpn/dhcp.c:268-327 | nor does a name that ends with its only dot |
| SearchDomains.JoinSplit | src/openvpn/dhcp.c:291-306 | the labels hold no dots and joined with dots are the name |
| SearchDomains.TempUseBounded | src/openvpn/dhcp.c:272-308 | the 256 byte temporary buffer suffices if and only if no name passes the guard with exactly 256; then one byte more is written |
| SearchDomains.EdgeExample | src/openvpn/dhcp.c:278-285 | a single name of 255 characters passes the guard and needs 257 bytes |
| SearchDomains.FittingNamesPass | src/openvpn/dhcp.c:278-285 | names whose encoding fits the option never trip the guard |
| ClientNat.ClientNatOptionList.ClientNatTransform | src/openvpn/clinat.c:183-265 | one pass rewrites source and destination independently, each by the first rule of its kind that matches the original address, and adjusts the header checksum, and that of a TCP or UDP header which the packet holds in full, by the change of the addresses |
| ClientNat.AdjustedKeepsSums | src/openvpn/clinat.c:239-264 | whatever else the checksums cover, the one's complement sums over the packet stay what they were, and the field of another protocol stays as it is |
| ClientNat.TranslateKeepsSums | src/openvpn/clinat.c:183-265 | translating a packet keeps its one's complement sums, over the words of its own addresses and whatever else |
| ClientNat.WordSumIs | src/openvpn/proto.h:234-244 | the sum of the two words that the four bytes of an address make up |
| ClientNat.FirstRuleApplies | src/openvpn/clinat.c:195-236 | of rules of both kinds, the first of the right kind that matches is the one applied |
| ClientNat.TranslateBits | src/openvpn/clinat.c:229 | network bits become those of the other network and host bits stay |
| ClientNat.TranslateWithoutChecksum | src/openvpn/clinat.c:183-265 | a UDP packet without a checksum goes through without one if and only if the words of its addresses did not shrink and grew by a multiple of 65535 |
| ClientNat.MissingChecksumIsFilledIn | src/openvpn/clinat.c:183-265 | with one rule from 10.0.0.0/8 to 11.0.0.0/8 every packet from 10.0.0.1 without a checksum goes out with one |
| Checksum.AdjustKeepsSum | src/openvpn/proto.h:208-244 | the folded update of a checksum equals recomputation modulo 65535, for every change of up to four words |
| Checksum.AdjustedIsZeroIff | src/openvpn/proto.h:215-232 | exactly when the updated field is zero, the value by which UDP says that there is no checksum |
| Checksum.ZeroIsNotKept | src/openvpn/proto.h:215-232 | a field of zero does not stay zero |
| ClientNat.Transform | src/openvpn/clinat.c:195-264 | the same for any way of matching, translating and summing words |
| ClientNat.RewriteBack | src/openvpn/clinat.c:183-239 | for networks without host bits, translating out and back restores an address if and only if no rule in front of the one used has the translated address in its foreign network |
| ClientNat.DisjointNetworksComeBack | src/openvpn/clinat.c:183-239 | with disjoint foreign networks that hold no untranslated address, everything is restored |
| ClientNat.SharedForeignNetworkIsLost | src/openvpn/clinat.c:183-239 | with two rules for one foreign network an address comes back as another one |
| ClientNat.RoundTrip | src/openvpn/clinat.c:183-239 | a packet out and its mirrored reply in restore exactly the addresses that no earlier rule claims |
| ClientNat.SeparateRoundTrip | src/openvpn/clinat.c:183-239 | with disjoint foreign networks for each kind of rules, the reply to a packet comes in with the packet's own addresses |
| Argv.ArgvPrepFormat | src/openvpn/argv.c:286-324 | the loop joins the words of the format with the delimiter and counts them |
| Argv.WordsAre | src/openvpn/argv.c:286-324 | words are nonempty, hold no spaces and make up all of the format but its spaces |
| Argv.PiecesAreWords | src/openvpn/argv.c:346-419 | splitting the expanded format gives as many pieces as words if and only if there is a word and no 0x1D in format or arguments; the pieces are then the expanded words |
| Argv.SimpleWords | src/openvpn/argv.c:286-324 | splitting a format into words tears no directive apart and loses none |
| Argv.ExpandJoin | src/openvpn/argv.c:346-419 | expanding the joined words is joining the expanded words |
| Argv.SplitJoin | src/openvpn/argv.c:395-408 | splitting undoes joining where no word holds the delimiter |
| Argv.Vector.PrintfArglist | src/openvpn/argv.c:346-419 | appends the expanded words on success, which is exactly when there is a word and no delimiter; otherwise drops everything, or changes nothing if there is no format or printing fails; the vector stays terminated with argc below its capacity |
| Argv.Vector.AppendPieces | src/openvpn/argv.c:395-408 | the splitting loop appends exactly the pieces |
| Argv.Vector.Append | src/openvpn/argv.c:156-161 | appends one string and keeps the vector terminated |
| Argv.Vector.Extend | src/openvpn/argv.c:47-62 | a larger array with the same contents, never a smaller one |
| Argv.Vector.Grow | src/openvpn/argv.c:139-145 | room for the new strings and the terminator |
| Argv.Vector.Reset | src/openvpn/argv.c:112-124 | empties the vector |
| Argv.Vector.constructor | src/openvpn/argv.c:70-92 | an empty, terminated vector |
| Argv.AdjustPowerOf2 | src/openvpn/integer.h:204-216 | a power of two, at least u and less than twice u |
| BufferList.List.PushData | src/openvpn/buffer.c:1226-1252 | appends the data; head, tail, size and links stay consistent and both assertions hold |
| BufferList.List.Pop | src/openvpn/buffer.c:1318-1333 | drops the first buffer, if there is one |
| BufferList.List.Advance | src/openvpn/buffer.c:1335-1347 | drops bytes of the first buffer, and the buffer when none are left |
| BufferList.List.AggregateSeparator | src/openvpn/buffer.c:1267-1310 | the relinked list holds the merged prefix and the unchanged rest, or is unchanged when fewer than two entries fit |
| BufferList.List.Merge | src/openvpn/buffer.c:1286-1299 | every copy and separator fits the allocation, and together they are the separated contents |
| BufferList.FittingIsLongest | src/openvpn/buffer.c:1267-1284 | a prefix fits the limit if and only if it is no longer than the one merged |
| BufferList.AggregationConserves | src/openvpn/buffer.c:1312-1316 | without a separator the concatenated contents stay the same |
| BufferList.AggregatedHeadFits | src/openvpn/buffer.c:1267-1310 | the merged buffer is within the limit and the next one would not have fitted in |

## Left out

- Cipher, HMAC and PEM backends: function-valued parameters; failures of their update calls are not modelled.
- TwoPeers.DeliveredAtMostOnceAsSent: takes as given that a packet passes the tag check only if the peer sent it, and that the clock is past its first second.
- AuthToken.VerifiedWasIssued: takes as given that the two MAC inputs that are compared were signed before.
- TwoPeers.UsageNeverExceeded: block counts are modelled modulo 2^64; the bound is stated for buffers below the source's maximal buffer size.
- CryptoEpoch.CryptoOptions.ReplaceUpdateRecvKey: the replay record is moved after the keys, which it shares nothing with; releasing the list of the discarded record is left out.
- ReplayRecord.PacketIdRec.CheckId: persistent packet ids are left out; a record loaded from a file does not have the window this model starts from.
- AuthToken.TlsMulti.VerifyAuthToken: time_t is 64 bits wide, and 2 * renewal does not overflow.
- HexFormat.FormatHexEx: a block size of 0 where it would be divided by is excluded, as the source leaves it undefined.
- StaticKey.ReadKeyFile: wiping the input buffer and reading the file are left out.
- SearchDomains.WriteDhcpSearchStr: its temporary buffer has one byte more than the source's, so that the boundary case can be stated.
- ClientNat.ClientNatOptionList.ClientNatTransform: header fields other than protocol, addresses and checksums are not modelled.
- Argv.Vector.PrintfArglist: directives are given with the text they print, and whether vsnprintf succeeds is a parameter; incomplete directives, whose effect C leaves undefined, and the overflow assertions of the allocation are left out.
- BufferList.List.PushData: null data and freeing of memory are left out; a buffer is its bytes.
- DhcpOptions.DoExtract: the header checks and the checksum of the surrounding message are left out.
- The non-AEAD packet format (openvpn_encrypt_v1, openvpn_decrypt_v1), OFB and CFB modes: same shape without epochs.
- Data channel offload, compression stubs, the control channel and TLS: not modelled.
- cipher_get_aead_limits: the limit is a parameter of the initial state.
- Secrecy, constant-time comparison and memory wiping: not functional properties.
