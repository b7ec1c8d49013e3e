# LIM security utilities, modelled in Dafny

This project models the security utilities of the LIM (link-layer management) module of the
prima WLAN driver and proves properties of the model. The code lives in `limSecurityUtils.c`.
It has three parts:

- **WEP encapsulation of the shared-key authentication frame 3.** This follows clause 8.2.1 of
  IEEE 802.11-2007 and covers `limRC4`, `limComputeCrc32`, `limEncryptAuthFrame` and
  `limDecryptAuthFrame`. The RC4 state box is an `array` that the key schedule and the
  generator loop permute in place. Each routine is proved against a functional specification
  (`KeySchedule`, `PrgaAfter`, `Keystream`, `Rc4Output`, `Crc`, `EncryptedAuthBody`,
  `DecryptedBuffer`, `IcvCheck`). The properties are then proved about those functions:
  - the box stays a permutation;
  - RC4 is its own inverse;
  - encrypting and then decrypting restores the body and passes the ICV check;
  - a one-octet change anywhere after the IV field makes the ICV check fail.
- **The pre-authentication list.** This covers `limInitPreAuthList`, `limAddPreAuthNode`,
  `limSearchPreAuthList`, `limReleasePreAuthNode`, `limDeletePreAuthNode`,
  `limDeletePreAuthList` and the periodic sweep `limPreAuthClnupHandler`. Everything sits
  in a class `PreAuthList` with three fields:
  - `nodes`: the node records, head first;
  - `numContexts`: the counter `gLimNumPreAuthContexts`;
  - `events`: the calls the routines make into timers, the peer table and the frame
    transmitter, in the order they make them.
- **Key installation and removal.** This covers the four `limSend*KeyReq` routines, the two
  `limPostSme*Cnf` confirmations and the decision function `limIsAuthAlgoSupported`. The
  LIM globals and the PE session are classes. Every call into code outside this file is a
  method parameter:
  - buffer allocation;
  - configuration reads;
  - posting to WDA, the hardware abstraction layer.

  The messages posted to WDA and to SME are recorded in sequence fields.

Modules, in dependency order:

- `LimTypes` (lim_types.dfy): octets, MAC addresses, `Option`, system roles.
- `Buffers` (buffers.dfy): `Splice`, which describes a copy into a buffer, and `palCopyMemory`.
- `CrcStep` (crc_step.dfy): the per-octet CRC-32 step and its injectivity.
- `Crc32` (crc32.dfy): `limComputeCrc32` and the error-detection property.
- `Rc4` (rc4.dfy): `limRC4`.
- `Wep` (wep.dfy): `limEncryptAuthFrame`, `limDecryptAuthFrame` and the round trip.
- `PreAuthRegistry` (preauth.dfy): the pre-authentication list.
- `AuthPolicy` (auth_policy.dfy): `limIsAuthAlgoSupported`.
- `KeyInstall` (key_install.dfy): key requests and confirmations.

The model follows one build configuration:
- `WNI_POLARIS_FW_PRODUCT == AP`;
- `WLAN_SOFTAP_FEATURE` on;
- `FEATURE_WLAN_WAPI`, `GEN6_TODO` and `ANI_OS_TYPE_RTAI_LINUX` off.

Some constants come from the driver's header files, which are not part of this model. Their
values are taken as:
- `SIR_MAC_WEP_IV_LENGTH` = 4;
- `SIR_MAC_WEP_ICV_LENGTH` = 4;
- `sizeof(tSirMacAuthFrameBody)` = 136;
- `LIM_ENCR_AUTH_BODY_LEN` = 144;
- `sizeof(tSirMacTimeStamp)` = 8;
- `SIR_MAC_MAX_NUM_OF_DEFAULT_KEYS` = 4;
- `eSIR_MAC_PREV_AUTH_NOT_VALID_REASON` = 2.

`LIM_SEED_LENGTH` = 16 is defined in the file itself.

## Model

| member | source | states |
|---|---|---|
| Buffers.CopyMemory | drivers/staging/prima/CORE/MAC/src/pe/lim/limSecurityUtils.c:739 | palCopyMemory: the n octets land at the destination offset; every other octet of the buffer is unchanged |
| CrcStep.CrcUpdateInjectiveInOctet | drivers/staging/prima/CORE/MAC/src/pe/lim/limSecurityUtils.c:792 | for a fixed register, two different octets leave two different registers (assumed reflected CRC-32 step) |
| CrcStep.CrcUpdateInjectiveInRegister | drivers/staging/prima/CORE/MAC/src/pe/lim/limSecurityUtils.c:792 | for a fixed octet, two different registers stay different after the step |
| Crc32.ComputeCrc32 | drivers/staging/prima/CORE/MAC/src/pe/lim/limSecurityUtils.c:782-801 | writes the CRC-32 of the first len octets of the source (register starts at ~0, complemented at the end) as 4 octets, least significant first, at the destination; nothing else changes |
| Crc32.CrcOfPrefix | drivers/staging/prima/CORE/MAC/src/pe/lim/limSecurityUtils.c:788-794 | the input loop: starting at all ones and folding every octet, then complementing, yields Crc of the first len octets |
| Crc32.StoreIcv | drivers/staging/prima/CORE/MAC/src/pe/lim/limSecurityUtils.c:796-800 | the output loop: writing the low octet and shifting right by 8, four times, stores exactly IcvBytes(crc) |
| Crc32.CrcFoldAppend | drivers/staging/prima/CORE/MAC/src/pe/lim/limSecurityUtils.c:791-792 | folding a concatenation is folding the first part, then the second |
| Crc32.CrcFoldInjective | drivers/staging/prima/CORE/MAC/src/pe/lim/limSecurityUtils.c:791-792 | two different registers stay different after the same octets are folded into both |
| Crc32.SingleOctetErrorDetected | drivers/staging/prima/CORE/MAC/src/pe/lim/limSecurityUtils.c:788-794 | two equal-length messages that differ in exactly one octet have different CRC-32 values |
| Crc32.IcvRoundTrip | drivers/staging/prima/CORE/MAC/src/pe/lim/limSecurityUtils.c:796-800 | reading the 4 ICV octets back as a little-endian value gives the CRC again |
| Crc32.IcvBytesInjective | drivers/staging/prima/CORE/MAC/src/pe/lim/limSecurityUtils.c:796-800 | two CRC values give the same ICV octets if and only if they are equal |
| Rc4.Rc4 | drivers/staging/prima/CORE/MAC/src/pe/lim/limSecurityUtils.c:829-893 | writes frameLen mod 256 octets at the destination: keystream XOR source, with 0 for a NULL source; the rest of the buffer is untouched |
| Rc4.ScheduleKey | drivers/staging/prima/CORE/MAC/src/pe/lim/limSecurityUtils.c:847-864 | the box starts as the identity and ends as KeySchedule(seed, keyLength), reading the seed cyclically over its first keyLength octets |
| Rc4.KeyScheduleStep | drivers/staging/prima/CORE/MAC/src/pe/lim/limSecurityUtils.c:855-863 | one key-schedule pass: j becomes the 8-bit sum of j, entry i and seed octet k; entries i and j swap; k goes back to 0 at keyLength |
| Rc4.GeneratorLoop | drivers/staging/prima/CORE/MAC/src/pe/lim/limSecurityUtils.c:868-888 | the generator loop writes Rc4Output(seed, keyLength, src, len) at the destination, from i = j = 0 on the scheduled box |
| Rc4.GeneratorPass | drivers/staging/prima/CORE/MAC/src/pe/lim/limSecurityUtils.c:874-887 | one generator pass advances the generator state and appends keystream octet XOR source octet to the output |
| Rc4.GeneratorStep | drivers/staging/prima/CORE/MAC/src/pe/lim/limSecurityUtils.c:876-884 | i goes up by 1 and j by entry i, both mod 256; the two entries swap; the output is the entry at the 8-bit sum of the swapped entries |
| Rc4.IdentityIsPermutation | drivers/staging/prima/CORE/MAC/src/pe/lim/limSecurityUtils.c:848-849 | the initial box is a permutation of 0..255 |
| Rc4.SwapPermutes | drivers/staging/prima/CORE/MAC/src/pe/lim/limSecurityUtils.c:858-860 | exchanging two entries of a permutation leaves a permutation |
| Rc4.KsaStepPermutes | drivers/staging/prima/CORE/MAC/src/pe/lim/limSecurityUtils.c:857-860 | one key-schedule step keeps the box a permutation |
| Rc4.KsaPermutes | drivers/staging/prima/CORE/MAC/src/pe/lim/limSecurityUtils.c:853-864 | after any number of key-schedule steps, and so after all 256, the box is a permutation of 0..255 |
| Rc4.PrgaStepPermutes | drivers/staging/prima/CORE/MAC/src/pe/lim/limSecurityUtils.c:876-881 | one generator step keeps the box a permutation |
| Rc4.PrgaPermutes | drivers/staging/prima/CORE/MAC/src/pe/lim/limSecurityUtils.c:872-888 | every generator state holds a permutation of 0..255 |
| Rc4.KsaSeedPrefix | drivers/staging/prima/CORE/MAC/src/pe/lim/limSecurityUtils.c:857-863 | the key schedule reads only the first keyLength seed octets |
| Rc4.PrgaSeedPrefix | drivers/staging/prima/CORE/MAC/src/pe/lim/limSecurityUtils.c:872-881 | the generator states depend only on the first keyLength seed octets |
| Rc4.KeystreamSeedPrefix | drivers/staging/prima/CORE/MAC/src/pe/lim/limSecurityUtils.c:883-884 | the keystream depends only on the first keyLength seed octets |
| Rc4.Rc4SeedPrefix | drivers/staging/prima/CORE/MAC/src/pe/lim/limSecurityUtils.c:857-887 | the output of limRC4 depends only on the first keyLength seed octets |
| Rc4.XorStreamSourcePrefix | drivers/staging/prima/CORE/MAC/src/pe/lim/limSecurityUtils.c:885 | only the first n source octets reach the output |
| Rc4.XorStreamInvolution | drivers/staging/prima/CORE/MAC/src/pe/lim/limSecurityUtils.c:887 | XORing the same keystream twice restores the source |
| Rc4.Rc4Involution | drivers/staging/prima/CORE/MAC/src/pe/lim/limSecurityUtils.c:867-892 | running limRC4 twice with the same seed and length restores the first frameLen mod 256 source octets |
| Rc4.XorStreamOneOctet | drivers/staging/prima/CORE/MAC/src/pe/lim/limSecurityUtils.c:885-887 | changing one source octet changes exactly the matching output octet |
| Rc4.Rc4OneOctet | drivers/staging/prima/CORE/MAC/src/pe/lim/limSecurityUtils.c:885-887 | changing one source octet of limRC4 changes exactly the matching output octet and no other |
| Wep.KeyIdOctet | drivers/staging/prima/CORE/MAC/src/pe/lim/limSecurityUtils.c:756 | the fourth IV octet holds the key ID (mod 4) in its two most significant bits and zeros elsewhere |
| Wep.BuildSeed | drivers/staging/prima/CORE/MAC/src/pe/lim/limSecurityUtils.c:736-739 | the seed buffer is 16 octets; its first keyLength + 3 octets are the 3 IV octets followed by the key |
| Wep.EncryptAuthFrame | drivers/staging/prima/CORE/MAC/src/pe/lim/limSecurityUtils.c:726-757 | the plaintext buffer gets the ICV of the 136-octet body behind it; the encrypted body becomes IV, key-ID octet and RC4 (seed IV‖key) over body‖ICV |
| Wep.AppendIcv | drivers/staging/prima/CORE/MAC/src/pe/lim/limSecurityUtils.c:741-745 | the 4 ICV octets of the body are copied right behind the body |
| Wep.EncipherBody | drivers/staging/prima/CORE/MAC/src/pe/lim/limSecurityUtils.c:747-756 | the RC4 output over 140 octets goes after the IV field, then the three IV octets and the key-ID octet go in front |
| Wep.WriteIvField | drivers/staging/prima/CORE/MAC/src/pe/lim/limSecurityUtils.c:753-756 | the first four octets of the encrypted body become the three seed octets and the key-ID octet |
| Wep.EncryptedBodyWritten | drivers/staging/prima/CORE/MAC/src/pe/lim/limSecurityUtils.c:747-756 | the RC4 call and the IV-field writes together leave EncryptedAuthBody in the buffer |
| Wep.SameCipherText | drivers/staging/prima/CORE/MAC/src/pe/lim/limSecurityUtils.c:748-750 | the RC4 call over the 16-octet seed buffer and the 140-octet plaintext buffer equals RC4 seeded with IV‖key over body‖ICV |
| Wep.EncryptedLayout | drivers/staging/prima/CORE/MAC/src/pe/lim/limSecurityUtils.c:748-756 | octets 0-2 of an encrypted body are the IV, octet 3 carries the key ID in its top bits, and from octet 4 on comes RC4 over body‖ICV |
| Wep.DecryptAuthFrame | drivers/staging/prima/CORE/MAC/src/pe/lim/limSecurityUtils.c:924-964 | the plaintext buffer gets RC4, seeded with the received IV and the key, over the octets after the IV field; the status is the ICV check |
| Wep.DecryptedBodyWritten | drivers/staging/prima/CORE/MAC/src/pe/lim/limSecurityUtils.c:934-944 | the RC4 call of the decryption leaves DecryptedBuffer in the plaintext buffer |
| Wep.CompareIcv | drivers/staging/prima/CORE/MAC/src/pe/lim/limSecurityUtils.c:955-963 | success if and only if all 4 trailer octets at frameLen - 4 equal the computed ICV; the first mismatch gives LIM_DECRYPT_ICV_FAIL |
| Wep.DecryptedFront | drivers/staging/prima/CORE/MAC/src/pe/lim/limSecurityUtils.c:940-944 | only the first frameLen mod 256 octets of the decrypted buffer are RC4 output |
| Wep.IcvCheckPasses | drivers/staging/prima/CORE/MAC/src/pe/lim/limSecurityUtils.c:950-963 | a buffer that begins with a body and its ICV passes the check over 140 octets |
| Wep.IcvCheckFails | drivers/staging/prima/CORE/MAC/src/pe/lim/limSecurityUtils.c:950-963 | a buffer that differs from body‖ICV in exactly one of the 140 octets fails the check |
| Wep.BodyOctetChanged | drivers/staging/prima/CORE/MAC/src/pe/lim/limSecurityUtils.c:950-952 | a change inside the body changes its CRC, so the old trailer no longer matches |
| Wep.IcvOctetChanged | drivers/staging/prima/CORE/MAC/src/pe/lim/limSecurityUtils.c:955-960 | a change inside the trailer leaves the body's CRC alone, so the trailer no longer matches |
| Wep.DecryptEncryptRoundTrip | drivers/staging/prima/CORE/MAC/src/pe/lim/limSecurityUtils.c:924-964 | decrypting an encrypted body with the same key over 140 octets restores body‖ICV and reports success |
| Wep.ForgedPlaintext | drivers/staging/prima/CORE/MAC/src/pe/lim/limSecurityUtils.c:940-944 | decrypting a body forged in one octet after the IV field yields body‖ICV changed in exactly the matching octet |
| Wep.ForgedFailsCheck | drivers/staging/prima/CORE/MAC/src/pe/lim/limSecurityUtils.c:950-963 | such a decrypted buffer fails the ICV check |
| Wep.TamperDetected | drivers/staging/prima/CORE/MAC/src/pe/lim/limSecurityUtils.c:950-963 | changing any one octet after the IV field of an encrypted body makes limDecryptAuthFrame report LIM_DECRYPT_ICV_FAIL |
| Wep.EncryptedBufferDecrypts | drivers/staging/prima/CORE/MAC/src/pe/lim/limSecurityUtils.c:934-963 | the encrypted-body buffer limEncryptAuthFrame leaves, whatever it holds beyond its 144 octets, decrypts over 140 octets with the same key to body and ICV and passes the ICV check |
| PreAuthRegistry.IndexOf | drivers/staging/prima/CORE/MAC/src/pe/lim/limSecurityUtils.c:308-316 | the position of the first node with the address: every earlier node has another address, and None means no node has it |
| PreAuthRegistry.RemoveFirst | drivers/staging/prima/CORE/MAC/src/pe/lim/limSecurityUtils.c:407-480 | deleting removes exactly one node when the address occurs, none otherwise |
| PreAuthRegistry.PreAuthList.Init | drivers/staging/prima/CORE/MAC/src/pe/lim/limSecurityUtils.c:192-241 | the list is emptied, the counter is kept, and a cleanup timer with the configured timeout is created only on an AP whose configuration read and timer creation both succeed |
| PreAuthRegistry.PreAuthList.Locate | drivers/staging/prima/CORE/MAC/src/pe/lim/limSecurityUtils.c:306-316 | the walk stops at the first node with the address |
| PreAuthRegistry.PreAuthList.Search | drivers/staging/prima/CORE/MAC/src/pe/lim/limSecurityUtils.c:303-319 | returns the first node with the address, or None |
| PreAuthRegistry.PreAuthList.Add | drivers/staging/prima/CORE/MAC/src/pe/lim/limSecurityUtils.c:345-353 | the node is prepended and the counter goes up by one; nothing else changes |
| PreAuthRegistry.PreAuthList.Release | drivers/staging/prima/CORE/MAC/src/pe/lim/limSecurityUtils.c:374-381 | the node is handed back with fFree set and its timer deactivated; the counter goes down by one; the list is untouched |
| PreAuthRegistry.PreAuthList.Delete | drivers/staging/prima/CORE/MAC/src/pe/lim/limSecurityUtils.c:407-480 | unlinks only the first match and keeps the rest in order; stops its auth response timer if started; releases it; with no match, list, counter and events are unchanged |
| PreAuthRegistry.PreAuthList.DeleteAll | drivers/staging/prima/CORE/MAC/src/pe/lim/limSecurityUtils.c:262-278 | releases every node, head first, empties the list and lowers the counter by the former length |
| PreAuthRegistry.PreAuthList.Sweep | drivers/staging/prima/CORE/MAC/src/pe/lim/limSecurityUtils.c:504-594 | keeps exactly the unseen nodes, in order and marked seen; evicts every seen node in list order; lowers the counter by their number |
| PreAuthRegistry.PreAuthList.Evict | drivers/staging/prima/CORE/MAC/src/pe/lim/limSecurityUtils.c:543-569 | one eviction: stop the auth response timer if started, send a deauthentication with reason 2 if the peer has no station entry, release the node |
| PreAuthRegistry.LookupFinds | drivers/staging/prima/CORE/MAC/src/pe/lim/limSecurityUtils.c:303-319 | a search finds a node if and only if some node has the address, and the node found has that address |
| PreAuthRegistry.SearchAfterAdd | drivers/staging/prima/CORE/MAC/src/pe/lim/limSecurityUtils.c:345-353 | after a node is added, a search for its address returns that node |
| PreAuthRegistry.SearchAfterDelete | drivers/staging/prima/CORE/MAC/src/pe/lim/limSecurityUtils.c:407-480 | deleting an address that occurs once leaves no node with it |
| PreAuthRegistry.AddKeepsUnique | drivers/staging/prima/CORE/MAC/src/pe/lim/limSecurityUtils.c:345-353 | adding a node after a search for its address came back empty keeps every address in the list unique; limAddPreAuthNode does not check this itself |
| PreAuthRegistry.DeleteKeepsUnique | drivers/staging/prima/CORE/MAC/src/pe/lim/limSecurityUtils.c:407-480 | deleting a node keeps every address unique |
| PreAuthRegistry.UniqueSearchAfterDelete | drivers/staging/prima/CORE/MAC/src/pe/lim/limSecurityUtils.c:407-480 | in a list with unique addresses, a deleted address is no longer found |
| PreAuthRegistry.SweepKeepsUnique | drivers/staging/prima/CORE/MAC/src/pe/lim/limSecurityUtils.c:526-593 | a sweep keeps every address unique |
| PreAuthRegistry.DeleteKeepsOthers | drivers/staging/prima/CORE/MAC/src/pe/lim/limSecurityUtils.c:407-480 | deleting one address leaves the result of a search for any other address unchanged |
| PreAuthRegistry.DeleteRestores | drivers/staging/prima/CORE/MAC/src/pe/lim/limSecurityUtils.c:423-453 | putting the deleted node back at its position gives the original list, so the other nodes keep their order |
| PreAuthRegistry.SweepPartitions | drivers/staging/prima/CORE/MAC/src/pe/lim/limSecurityUtils.c:526-593 | the survivors and the evicted nodes of a sweep add up to the whole list |
| PreAuthRegistry.SurvivorsSeen | drivers/staging/prima/CORE/MAC/src/pe/lim/limSecurityUtils.c:585-592 | every survivor is marked seen and was an unseen node of the list |
| PreAuthRegistry.AllSeenSwept | drivers/staging/prima/CORE/MAC/src/pe/lim/limSecurityUtils.c:528-584 | a sweep over nodes that are all seen keeps nothing |
| PreAuthRegistry.DoubleSweepEmpties | drivers/staging/prima/CORE/MAC/src/pe/lim/limSecurityUtils.c:526-593 | two sweeps with nothing added in between empty the list |
| PreAuthRegistry.SurvivorsCons | drivers/staging/prima/CORE/MAC/src/pe/lim/limSecurityUtils.c:532-537 | the head node is kept or dropped on its own, before the rest |
| PreAuthRegistry.SweepEventsCons | drivers/staging/prima/CORE/MAC/src/pe/lim/limSecurityUtils.c:532-569 | the head node is evicted, if at all, before the rest |
| PreAuthRegistry.AddedNodeLifetime | drivers/staging/prima/CORE/MAC/src/pe/lim/limSecurityUtils.c:526-593 | a node added unseen at the head survives the next sweep and is the first node the sweep after that evicts |
| PreAuthRegistry.DeauthOnlyWithoutStation | drivers/staging/prima/CORE/MAC/src/pe/lim/limSecurityUtils.c:549-564 | a sweep sends a deauthentication to a peer if and only if a seen node has that address and the peer has no station entry; reason 2, on the given session |
| AuthPolicy.IsAuthAlgoSupported | drivers/staging/prima/CORE/MAC/src/pe/lim/limSecurityUtils.c:82-169 | on an AP the session decides: a supported algorithm is the session's own or the session uses auto switch; elsewhere the configuration decides, and every item the branch reads was read successfully; shared key is supported only with privacy on (the session's flag on an AP, the configuration item elsewhere) |
| AuthPolicy.ApOpenSystem | drivers/staging/prima/CORE/MAC/src/pe/lim/limSecurityUtils.c:94-101 | on an AP, open system is supported if and only if the session uses open system or auto switch |
| AuthPolicy.ApSharedKey | drivers/staging/prima/CORE/MAC/src/pe/lim/limSecurityUtils.c:122-167 | on an AP, any other algorithm is supported if and only if the session uses shared key or auto switch and has privacy on |
| AuthPolicy.ApIgnoresConfig | drivers/staging/prima/CORE/MAC/src/pe/lim/limSecurityUtils.c:94-153 | on an AP the configuration is never consulted |
| AuthPolicy.OtherRoleUsesConfig | drivers/staging/prima/CORE/MAC/src/pe/lim/limSecurityUtils.c:104-167 | in any other role, open system needs its enable item read and nonzero; any other algorithm needs the shared-key enable item and the privacy item read and nonzero |
| AuthPolicy.FailedReadRejects | drivers/staging/prima/CORE/MAC/src/pe/lim/limSecurityUtils.c:104-166 | outside an AP, a failed read of any item the decision needs yields "not supported" |
| KeyInstall.Lim.PostSmeSetKeysCnf | drivers/staging/prima/CORE/MAC/src/pe/lim/limSecurityUtils.c:971-995 | one LIM_MLM_SETKEYS_CNF with the request's address and AID goes to SME and the global request is dropped; MLM state untouched |
| KeyInstall.Lim.PostSmeRemoveKeyCnf | drivers/staging/prima/CORE/MAC/src/pe/lim/limSecurityUtils.c:1002-1021 | one LIM_MLM_REMOVEKEY_CNF goes to SME, the global request is dropped and gLimMlmState is restored from gLimPrevMlmState |
| KeyInstall.Lim.SendSetBssKeyReq | drivers/staging/prima/CORE/MAC/src/pe/lim/limSecurityUtils.c:1043-1132 | more than 4 keys: INVALID_PARAMETERS; no buffer: RESOURCES_UNAVAILABLE; otherwise the BSS key request (BSS index, type, the numKeys keys, single-TID setting, session ID) goes to WDA with deferred messages off, and a rejected post is confirmed as HAL_SEND_MESSAGE_FAIL |
| KeyInstall.Lim.SendSetStaKeyReq | drivers/staging/prima/CORE/MAC/src/pe/lim/limSecurityUtils.c:1155-1277 | no buffer: returns with nothing changed; otherwise saves limPrevMlmState, enters the wait state, posts the station or broadcast key request with the keys and WEP type the encryption type calls for, and a rejected post is confirmed as HAL_SEND_MESSAGE_FAIL |
| KeyInstall.Lim.SendRemoveBssKeyReq | drivers/staging/prima/CORE/MAC/src/pe/lim/limSecurityUtils.c:1299-1367 | no buffer: RESOURCES_UNAVAILABLE; otherwise the remove-BSS-key request goes to WDA and a rejected post is confirmed as HAL_SEND_MESSAGE_FAIL; every confirmation restores the MLM state; deferred processing is untouched |
| KeyInstall.Lim.SendRemoveStaKeyReq | drivers/staging/prima/CORE/MAC/src/pe/lim/limSecurityUtils.c:1390-1467 | no buffer: RESOURCES_UNAVAILABLE; a static WEP key: INVALID_PARAMETERS without posting; otherwise the remove-STA-key request goes to WDA with deferred messages off, and a rejected post is confirmed as HAL_SEND_MESSAGE_FAIL |
| KeyInstall.TooManyBssKeys | drivers/staging/prima/CORE/MAC/src/pe/lim/limSecurityUtils.c:1053-1061 | more than 4 keys are refused with INVALID_PARAMETERS and nothing is posted, whatever allocation and posting would do |
| KeyInstall.StaticWepRemovalRefused | drivers/staging/prima/CORE/MAC/src/pe/lim/limSecurityUtils.c:1418-1424 | removing a WEP40/WEP104 static key through the station interface is refused with INVALID_PARAMETERS and nothing is posted |
| KeyInstall.AllocationFailure | drivers/staging/prima/CORE/MAC/src/pe/lim/limSecurityUtils.c:1065-1075 | a failed allocation is confirmed as RESOURCES_UNAVAILABLE by every send routine but limSendSetStaKeyReq, which confirms nothing; none of them posts |
| KeyInstall.PostDecidesConfirmation | drivers/staging/prima/CORE/MAC/src/pe/lim/limSecurityUtils.c:1115-1131 | for every send routine (set-BSS-key with any count up to 4, set-STA-key, remove-BSS-key, and remove-STA-key for anything but static WEP), a request with a parameter block is handed to WDA; a rejection is confirmed exactly once as HAL_SEND_MESSAGE_FAIL and an acceptance is not confirmed (also at 1269-1276, 1350-1365, 1450-1465) |
| KeyInstall.StaKeyWaitStates | drivers/staging/prima/CORE/MAC/src/pe/lim/limSecurityUtils.c:1201-1234 | the session waits for the broadcast key if and only if the peer is in an IBSS, key[0] is not unicast and the request is not static WEP, and only when the broadcast-key request is posted; otherwise it waits for the station key, even for a static WEP request posted with the broadcast flag |
| KeyInstall.StaKeysCopied | drivers/staging/prima/CORE/MAC/src/pe/lim/limSecurityUtils.c:1218-1255 | static WEP (no keys given) hands all 4 default keys and the static WEP type to WDA; dynamic WEP hands key[0] and the dynamic type; TKIP and CCMP hand key[0]; any other type hands none |

## Left out

- Logging (`limLog`, `PELOG*`, `sirDumpBuf`, `limPrintMacAddr`) and `MTRACE` tracing are not modelled; they do not affect the state.
- `halGetTxTSFtimer` reads a hardware clock. Its 8 octets are the `tsf` parameter of `Wep.EncryptAuthFrame`, and they supply the IV.
- CrcStep.CrcUpdate: `limCrcUpdate` is defined outside this file and is not part of this model. It is taken to be the standard bit-reflected CRC-32 step with polynomial 0xEDB88320, the IEEE 802.3 FCS.
- The seed octets that neither copy reaches are left as the fresh buffer has them. `limRC4` never reads them, which `Rc4.Rc4SeedPrefix` proves.
- The `Octet` values of the RC4 box are integers in 0..255, and every 8-bit sum of the driver is written out as `% 256`.
- `Wep.DecryptAuthFrame` requires `frameLen >= 4` and a plaintext buffer of at least `frameLen` octets. The model requires both, because without them the routine reads `pPlainBody[frameLen - 4 + i]` before or beyond the buffer.
- With `frameLen >= 256`, the driver writes only `frameLen mod 256` octets. It still compares the trailer at `frameLen - 4` against a CRC over `(frameLen - 4) mod 256` octets. The model keeps that behaviour as written: the trailer comes from the old plaintext buffer, and the CRC length is truncated. The round-trip and tamper lemmas are stated for the 140 octets of an authentication frame 3.
- `palAllocateMemory`, `wlan_cfgGetInt`, `wdaPostCtrlMsg` and `tx_timer_create` are parameters that give the outcome of each call. `limPostSmeMessage`, `limSendDeauthMgmtFrame`, `limDeactivateAndChangePerStaIdTimer` and `tx_timer_deactivate` become entries in a message or event log. `dphLookupHashEntry` is the `stations` set.
- Freeing memory is not modelled (`palFreeMemory`, the WDA parameter blocks). The driver leaks the parameter block on its INVALID_PARAMETERS and post-failure paths, and the model claims nothing about ownership.
- `palZeroMemory` of the WDA parameter blocks is not modelled as such. Fields that stay zero are represented by their absence: `staWepType` is `None`, and the key list is shorter.
- PreAuthRegistry.PreAuthList.Init records the configured timeout in milliseconds. The `SYS_MS_TO_TICKS` conversion and the `TX_AUTO_ACTIVATE` start of the timer are not modelled.
- `numContexts` is an unbounded integer. The driver's counter could wrap, and the model does not capture that.
- The linked list is a sequence. the `next` links, in-place unlinking and aliasing between nodes are not modelled, and the head-node and later-node branches of `limDeletePreAuthNode` and `limPreAuthClnupHandler` become one operation on the sequence.
- `Sweep` takes the session of the deauthentication as a parameter. The driver's variable `sessionEntry` is only declared when `GEN6_TODO` is defined.
- Node fields other than the five the routines read or write are not modelled, nor are the node timers (apart from the release event).
- MLM states other than the two wait states are opaque codes.
- Only the three key fields carried through to WDA are modelled: key ID, unicast flag and key octets.
- `KeyInstall.Lim.PostSmeSetKeysCnf` sets the AID only in the AP build, which is the build modelled here.
- `limPostSmeSetKeysCnf` restores no MLM state, unlike `limPostSmeRemoveKeyCnf`. After a rejected post, `limSendSetStaKeyReq` therefore leaves the session in the wait state it entered. `KeyInstall.Lim.SendSetStaKeyReq` states this: its new `limMlmState` depends on the allocation only, not on the post.
- `WDA_SET_STAKEY_REQ` and `WDA_SET_STA_BCASTKEY_REQ` are one message with a `broadcast` flag, `KeyInstall.StaKeyBroadcast`. `KeyInstall.Lim.SendSetStaKeyReq` posts that flag. `KeyInstall.StaKeyWaitStates` proves the quirk that follows: a static WEP request for an IBSS peer whose key[0] is not unicast has the broadcast flag set while the session waits in WT_SET_STA_KEY.
- A node added unseen survives one sweep, which marks it seen, and is evicted by the next sweep. The header comment of `limPreAuthClnupHandler` (limSecurityUtils.c:492-494) says the same. The model follows the code (`PreAuthRegistry.AddedNodeLifetime`).
- `limRestoreFromAuthState` is left out. It reprograms the channel and BSSID through calls outside this file.
- `limLookUpKeyMappings` is left out. It is a stub that always returns NULL.
- `drivers/gpu/msm/kgsl_debugfs.c` (debugfs files and seq_file printing under a lock) is I/O plumbing apart from the security utilities and is not part of this model.
- Build variants other than the one above are not modelled: the non-SOFTAP signature of `limIsAuthAlgoSupported`, the WAPI key type, and the RTAI timer expiry list.
