# A verified model of the ieee80211 stack of the RTL8187 driver

The `ieee80211/` directory of the driver is a complete software 802.11 layer: a private crypto library (AES, RC4,
Michael, cipher modes over scatterlists), the three link ciphers (WEP, TKIP, CCMP), the data path between Ethernet
frames and 802.11 fragments in both directions, and the management side (the transmit queue, the association
machine, the scan table, probe responses). This project models those parts in Dafny and proves what they are for.

The model has the form of the code. What the code updates in place is a class or an array with `modifies` clauses:
the AES tables and key schedules, the RC4 state, `crypto_tfm`, socket buffers, key structures, the pool of transmit
buffers, the fragment cache, the transmit queue, the station's state, the scan table. Each such method is proved equal
to a function of the old state, or to its specification outright, and the theorems are about those functions.

| files | source | subject |
|---|---|---|
| Gf256, RoundCipher, AesSpec, Words, AesTables, KeyExpansion, Aes, WordRounds, AesRounds, AesCipher, AesModes | aes.c | table-driven AES against FIPS-197 |
| Scatterwalk, CipherModes | scatterwalk.c, cipher.c | ECB and CBC over scatterlists |
| StreamCipher, Arc4, Rc4Body, Wep | arc4.c, ieee80211_crypt_wep.c | RC4 and WEP |
| Ccm, Ccmp, CcmpCrypt | ieee80211_crypt_ccmp.c | CCMP against CCM (RFC 3610) |
| WordFeed, Michael, Digest | michael_mic.c, digest.c | the Michael code over page-crossing scatterlists |
| TkipMixing, TkipCounter, Tkip, TkipCrypt, TkipFragments | ieee80211_crypt_tkip.c | TKIP keys, counters, receiver, frames |
| TkipLink | ieee80211_tx.c, ieee80211_rx.c | TKIP from the sender through ieee80211_rx |
| Dot11, Fragmentation, Transmit | ieee80211_tx.c | Ethernet frame to fragments |
| Reassembly, ReassemblyProofs, ReassemblyClash, Receive | ieee80211_rx.c | fragments to Ethernet frame |
| DataPath, LinkCiphers | ieee80211_tx.c, ieee80211_rx.c | sender and receiver together |
| TxQueue, Association | ieee80211_softmac.c | the transmit queue, joining a network |
| Sequence, TxPath | ieee80211_tx.c, ieee80211_softmac.c | buffer pool and transmit queue together |
| Recency, ScanTable | ieee80211_rx.c | the table of known networks |
| InfoElements, ProbeResponse | ieee80211_rx.c, ieee80211_softmac.c | printing and reading information elements |
| Bytes, Numbers, Options, Division, Skb | | byte strings, 16-bit words, socket buffers |

`dafny verify dfyconfig.toml` checks everything.

## Findings

Some of what the code is meant to do it does not always do. Each case is stated in the model with the exact condition
under which the code does it, and with inputs on which it does not.

- **A scatterlist offset beyond its page.** `scatterwalk_start` keeps an offset of a page or more as it is, and
  `scatterwalk_pagedone` then steps to the page behind the first one. `Scatterwalk.WalkedAsMeant`: a walk visits the
  bytes that the segment means exactly if the offset is below the page size or the bytes end in the page they start in.
- **The first-phase cache of the TKIP receiver.** `ieee80211_tkip_decrypt` caches the first-phase value of a frame's
  counter as soon as the cheap checksum is right, but the counter it compares with moves only once the Michael code of
  a whole MSDU is right too, and the cache does not say whose value it holds. `TkipLink.CoherentIffNotSpoilt`: whatever
  frame `ieee80211_rx` is given, the cache stays right exactly if the frame is none of these: one that renews the cache
  under another high counter, passes the checksum and is not authenticated thereby, be it a fragment or a forgery; or
  one of another transmitter that renews the cache and passes the checksum or has the kept high counter.
  `TkipLink.SentFragmentSpoils`: the stack's own sender does it with the first fragment under a new high counter;
  `Tkip.WrongTagSpoils` and `Tkip.SpoilerExists`: so does a wrong Michael code. `Tkip.SpoiltUsesWrongKey`: a frame under
  the kept counter is then decrypted with a wrong key.
- **TKIP over fragments.** `ieee80211_encrypt_fragment` adds a Michael code to every fragment, and `ieee80211_rx` checks
  one code behind the reassembled MSDU. `TkipFragments.RestoredIffOneFragment`: an MSDU is restored exactly if it was
  not cut.
- **A finished MSDU that stays in the cache.** `ieee80211_frag_cache_invalidate` frees the first live entry with the
  key, not the finished one; `ReassemblyProofs.ReleasedOnlyIfFirst` says when they are the same. Two entries get one key
  exactly if a first fragment arrives while another slot holds its key (`ReassemblyProofs.ClashBreaksUnique`), and what
  is handed up can then be a mixture of two MSDUs. `ReassemblyClash.ClashHappens`: eight frames in the clear that all
  pass the duplicate filter of `ieee80211_rx` do this to every receiver that takes some frames in the clear, that is
  with `open_wep`, as the driver sets it up, or without one of the four keys, or without `host_decrypt`. The others
  take no frames in the clear but EAPOL frames (`ReassemblyClash.OthersAreDeaf`).
- **EAPOL frames in the clear.** With 802.1X, `ieee80211_xmit` leaves EAPOL frames in the clear even with a cipher, and
  `ieee80211_rx` means to let them pass. It recognises them by the to-DS and from-DS bits, of which an ad-hoc frame has
  neither. `DataPath.ClearDeliveredIff` says which frames in the clear are delivered, `DataPath.EapolDropped` that
  EAPOL frames are among those that are not.
- **Association attempts that outlive a stop.** `ieee80211_stop_protocol` does not cancel `associate_procedure_wq`, and
  `ieee80211_softmac_new_net` queues it even while the protocol is stopped. `Association.LiveIffNoHazard`: an event
  leaves every harmless continuation live exactly if it is neither of these two; after either, the machine can come to
  wait for a retry with nothing pending (`Association.HazardSticks`), until it is stopped again
  (`Association.StuckStays`).
- **A parked frame whose buffer is taken away.** `ieee80211_softmac_xmit` parks a buffer of the pool, gives up its place
  in the count of pending buffers at once, and refuses frames only after `ieee80211_xmit` has built them. That this does
  no harm rests on the kernel, which `ieee80211_stop_queue` asks not to send: in every run that heeds it the fragments
  sent and parked are those of the frames taken (`TxPath.Path.Heed`). A caller that sends regardless loses the parked
  frame with the sixteenth one behind it (`TxPath.Path.SendRegardless`): on waking, what was owed is kept exactly if
  fewer were built, unless 4096 sequence numbers were used since (`TxPath.Path.Wake`).
- **Probe responses.** In ad-hoc mode the pairwise suite of the station's own WPA element is overwritten with the group
  suite (`ProbeResponse.SentWpaIs`), and a name of one space or of zeros is not read back (`ProbeResponse.NameKeptIff`).

## Model

Paths are relative to the repository. Within a row, "the code's" means the in-place form and "the function" its
specification.

| member | source | states |
|---|---|---|
| AesTables.Tables.GenTabs | ieee80211/aes.c:157-225 | The generated tables are those of FIPS-197: powers and logarithms of the generator of GF(2^8), the S-box as affine image of the multiplicative inverse and its inverse, the round constants, and for every byte the four forward, inverse and last-round words with their rotations. |
| AesTables.Tables.FMultIsMul | ieee80211/aes.c:116-122 | Adding logarithms with an end-around carry in one byte multiplies in GF(2^8), for all non-zero bytes. |
| Aes.ImixColIsInvMixColumn | ieee80211/aes.c:227-238 | The word trick of imix_col, four bytes doubled at once, is InvMixColumns on the four bytes. |
| Aes.KeyWordIsExpandedWord | ieee80211/aes.c:242-270 | Every word of the unrolled expansion, for 128, 192 and 256 bits, is the word that the recursion of FIPS-197 section 5.2 defines. |
| AesCipher.Context.SetKey | ieee80211/aes.c:272-324 | Lengths other than 16, 24 and 32 are refused and change nothing; otherwise E and D hold the expanded key and its InvMixColumns image for the equivalent inverse cipher. |
| AesRounds.TableRounds | ieee80211/aes.c:126-154 | One table round, forward or inverse, is one round of the cipher, for every state and round key. |
| AesCipher.Context.Encrypt | ieee80211/aes.c:341-377 | With generated tables and any key set, the output block is Cipher of FIPS-197 section 5.1, also when it overwrites the input. |
| AesCipher.Context.Decrypt | ieee80211/aes.c:394-431 | The equivalent inverse cipher over D computes the straightforward InvCipher of FIPS-197 section 5.3. |
| AesSpec.DecryptUndoesEncrypt | ieee80211/aes.c:394-431 | Decryption undoes encryption, for every key of every length and every block. |
| AesModes.AesIsInvertible | ieee80211/aes.c:341-431 | AES on 16-byte blocks satisfies what the cipher modes ask of a pair of block functions. |
| AesModes.AesCbcRoundTrip | ieee80211/cipher.c:98-121 | CBC decryption with AES undoes CBC encryption with AES, for every key, initialisation vector and whole number of blocks. |
| Scatterwalk.WalkedAsMeant | ieee80211/scatterwalk.c:52-93 | A segment is walked as its page, offset and length mean exactly if the offset is below the page size or the bytes end in the page they start in. |
| Scatterwalk.ListWalkedAsMeant | ieee80211/scatterwalk.c:71-93 | A list of such segments, empty ones included, is walked as meant. |
| Scatterwalk.Walk.PageDone | ieee80211/scatterwalk.c:71-93 | After a page the cursor stands at the next page or the next non-empty piece, and what is left to walk is the old rest without the page. |
| Scatterwalk.Walk.CopyChunks | ieee80211/scatterwalk.c:106-127 | Copying n bytes in or out, over any number of pages and segments, moves exactly the next n bytes of the walk and advances it by n. |
| Scatterwalk.ScatterBack | ieee80211/scatterwalk.c:44-50 | Writing over distinct addresses and then writing back what was there restores all of memory. |
| CipherModes.Tfm.Crypt | ieee80211/cipher.c:47-96 | For every mode, block function and scatterlist, in place or apart, the destination gets the mode applied to the gathered source, byte for byte, nothing else changes, and the chaining value ends as it must; a length that is no whole number of blocks is refused and changes nothing. |
| CipherModes.RunIsFlat | ieee80211/cipher.c:57-96 | Working block by block through memory that is being overwritten is the same as working on the flat source. |
| CipherModes.CbcDecryptUndoesEncrypt | ieee80211/cipher.c:98-121 | With inverse block functions, CBC decryption gives back the data and leaves the same chaining value as encryption, for data of any number of blocks. |
| CipherModes.EcbDecryptUndoesEncrypt | ieee80211/cipher.c:123-127 | The same for ECB, also for a cipher that carries state from block to block. |
| CipherModes.CbcInPlaceRoundTrip | ieee80211/cipher.c:47-121 | Encrypting a scatterlist in place and decrypting it in place restores the whole memory. |
| Ccm.SealIsCcm | ieee80211/ieee80211_crypt_ccmp.c:272-298 | The interleaved loop that authenticates and encrypts computes the CBC-MAC over the padded body and the counter-mode cipher text of RFC 3610. |
| Ccm.OpenUndoesSeal | ieee80211/ieee80211_crypt_ccmp.c:366-384 | The receiver's interleaved loop recovers every body and the same CBC-MAC. |
| Ccmp.AadIsPadded | ieee80211/ieee80211_crypt_ccmp.c:153-228 | The 32 bytes built in place are the length-prefixed, zero-padded additional data, for three and four addresses, with and without QoS. |
| Ccmp.TagFromStart | ieee80211/ieee80211_crypt_ccmp.c:153-228 | Starting from what ccmp_init_blocks leaves, the chain over the padded body is the CCM authentication tag of nonce, additional data and body. |
| Ccmp.SameNonceAndAad | ieee80211/ieee80211_crypt_ccmp.c:153-228 | Retry, power-management, more-data and sequence-number bits may change in transit without changing nonce or additional data. |
| Ccmp.OpenSealed | ieee80211/ieee80211_crypt_ccmp.c:301-404 | Whatever was sealed under the key index opens to the same body with the sender's packet number, even if the bits that may change in transit have changed. |
| CcmpCrypt.NextPnValue | ieee80211/ieee80211_crypt_ccmp.c:255-261 | Incrementing the bytes of the packet number from the back adds one, modulo the width. |
| CcmpCrypt.PnsDiffer | ieee80211/ieee80211_crypt_ccmp.c:255-261 | No packet number, and with it no nonce, comes twice within 2^48 frames. |
| CcmpCrypt.KeyData.InitBlocks | ieee80211/ieee80211_crypt_ccmp.c:153-228 | The three blocks are the counter block 0, the tag's chain start and the key stream block 0 of CCM. |
| CcmpCrypt.KeyData.Encrypt | ieee80211/ieee80211_crypt_ccmp.c:231-298 | Exactly with 8 bytes of room on both sides and a whole header, the buffer becomes header, CCMP header with the next packet number, CCM cipher text and tag; otherwise -1 and nothing changes. |
| CcmpCrypt.KeyData.Decrypt | ieee80211/ieee80211_crypt_ccmp.c:301-404 | Each refusal has its code, in the order of the checks, with the counters; a frame is accepted exactly if its tag is right, and then it is the opened frame and its packet number is kept. |
| CcmpCrypt.KeyData.SetKey | ieee80211/ieee80211_crypt_ccmp.c:407-435 | A key of 16 bytes sets cipher and receive counter, none clears, another length is refused; all counters restart, only the index stays. |
| Arc4.ScheduledPermutation | ieee80211/arc4.c:28-50 | The key schedule yields a permutation of the 256 bytes, for every key. |
| Arc4.AlwaysSound | ieee80211/arc4.c:28-71 | After any key and any number of steps the state is a permutation and is none of Finney's, from which the generator would degenerate. |
| Arc4.FlatIsStream | ieee80211/arc4.c:52-71 | ECB over one-byte blocks with a stream cipher is the exclusive or with its key stream. |
| Arc4.CryptTwice | ieee80211/arc4.c:52-71 | RC4 is its own inverse in the sense of the cipher modes. |
| Arc4.Cipher.SetKey | ieee80211/arc4.c:28-50 | The loop over the array leaves the scheduled state. |
| Arc4.Cipher.CryptRange | ieee80211/arc4.c:52-71 | The code's byte-by-byte run over a buffer crypts exactly the given range. |
| Wep.NeverWeak | ieee80211/ieee80211_crypt_wep.c:162-171 | After stepping over, the vector is never of the weak form, through wrap-around too. |
| Wep.OpenSealed | ieee80211/ieee80211_crypt_wep.c:226-299 | Every frame sealed with a key, index and vector opens to the same body. |
| Wep.WepData.Encrypt | ieee80211/ieee80211_crypt_wep.c:137-216 | Exactly with 4 bytes of room on both sides and a whole header, the buffer becomes header, vector and RC4 of body and checksum under the next vector; otherwise -1 and nothing changes. |
| Wep.WepData.Decrypt | ieee80211/ieee80211_crypt_wep.c:226-299 | The result is the opened frame exactly if length, index and checksum are right, else the code of the first that is not. |
| WordFeed.AnyChunking | ieee80211/michael_mic.c:71-103 | Feeding a message in any pieces, of any lengths, leaves the same state as feeding it whole. |
| WordFeed.PaddedWords | ieee80211/michael_mic.c:105-132 | Mixing the last partial word with its 0x5a and one zero word is the padding of the definition, for every remainder. |
| Michael.Context.Update | ieee80211/michael_mic.c:71-103 | The code's buffering of partial words computes the function on pending bytes and data. |
| Michael.FinishIsMic | ieee80211/michael_mic.c:65-132 | For every key and every cutting of the message, init, updates and final give the Michael code of the message. |
| Digest.Hash.Run | ieee80211/digest.c:27-85 | Over any scatterlist, with segments that start beyond their page or cross pages, the digest is the Michael code of the bytes meant, in order. |
| TkipMixing.MixPhase1 | ieee80211/ieee80211_crypt_tkip.c:279-298 | The eight loops over the five words compute the first mixing phase. |
| TkipMixing.MixPhase2 | ieee80211/ieee80211_crypt_tkip.c:301-345 | The twelve additions and rotations and the byte layout compute the second mixing phase. |
| TkipMixing.Phase1Injective | ieee80211/ieee80211_crypt_tkip.c:279-298 | Under one key, for every S-box, the first phase never gives the same value for different addresses or high counters. |
| TkipMixing.Phase2Injective | ieee80211/ieee80211_crypt_tkip.c:301-345 | The second phase never gives the same RC4 key for different first-phase values or low counters. |
| TkipMixing.MixingInjective | ieee80211/ieee80211_crypt_tkip.c:279-345 | The per-frame key determines the sender's address and the whole 48-bit counter. |
| TkipCounter.Run | ieee80211/ieee80211_crypt_tkip.c:442-446 | After n frames the counter is n + 1 modulo 2^48, and the cached first-phase key belongs to its high part. |
| Tkip.NoKeyRepeats | ieee80211/ieee80211_crypt_tkip.c:347-456 | No two frames less than 2^48 apart are encrypted with the same RC4 key. |
| Tkip.CoherentIffNotSpoilt | ieee80211/ieee80211_crypt_tkip.c:519-579 | From a right cache, any frame of any transmitter, whole or a fragment, leaves the cache right exactly if it does not spoil it: renew it under another high counter without being authenticated, or for another transmitter. |
| Tkip.FragmentSpoils | ieee80211/ieee80211_crypt_tkip.c:519-522 | Every genuine frame under another high counter that completes no MSDU spoils every right cache. |
| Tkip.WrongTagSpoils | ieee80211/ieee80211_crypt_tkip.c:576-579 | So does a frame with a wrong Michael code sent under another high counter. |
| Tkip.SpoilerExists | ieee80211/ieee80211_crypt_tkip.c:576-579 | For every right state with a key there is a frame that spoils it. |
| Tkip.SpoiltUsesWrongKey | ieee80211/ieee80211_crypt_tkip.c:519-523 | With a spoilt cache, a frame under the kept counter is decrypted with another key than it was encrypted with. |
| TkipLink.KeyStep | ieee80211/ieee80211_rx.c:686-750 | For every frame, ieee80211_rx changes the state of a TKIP key by decrypting it and, exactly if it is or completes an MSDU, verifying that; or the frame does not get that far and the state stays. |
| TkipLink.CoherentIffNotSpoilt | ieee80211/ieee80211_rx.c:458-750 | Through ieee80211_rx, with duplicates, other keys, fragments and reassembly, the cache stays right exactly if the frame gets to the key and spoils it not. |
| TkipLink.RunCoherent | ieee80211/ieee80211_rx.c:458-842 | The cache is right after every run of frames of anybody, garbled, in pieces or in the clear, none of which spoils it. |
| Tkip.RoundTrip | ieee80211/ieee80211_crypt_tkip.c:458-595 | In a right state an intact frame that is a whole MSDU, with any counter, passes checksum and Michael, comes out as it was, moves the counter and leaves the cache right. |
| TkipLink.IntactDelivered | ieee80211/ieee80211_rx.c:686-842 | Through ieee80211_rx such a frame is handed up as the Ethernet frame of what was signed, and the key takes over its counter. |
| Tkip.TkipSeparates | ieee80211/ieee80211_crypt_tkip.c:279-345 | The real mixing and header layout have what the theorems about the receiver ask for. |
| TkipLink.SenderToReceiver | ieee80211/ieee80211_tx.c:269-527 | An Ethernet frame that fits one 802.11 frame, sent as the n-th since key setup with the cached key, is handed up byte for byte by a station whose key has the two Michael halves swapped, after any run through ieee80211_rx that does not spoil its cache, fragments included; its counter is then n + 1 modulo 2^48. |
| TkipLink.SentFragmentSpoils | ieee80211/ieee80211_tx.c:436-480 | The first frame of an Ethernet frame that needs several, if its high counter is not the one the receiver keeps, spoils the receiver's cache. |
| TkipLink.TkipFits | ieee80211/ieee80211_crypt_tkip.c:946-952 | TKIP adds exactly the bytes it announces, so that its frames fit the fragment buffers, and its decryption leaves the header alone, as a receiver asks of its keys. |
| TkipCrypt.TkipData.SetKey | ieee80211/ieee80211_crypt_tkip.c:837-880 | 32 bytes set the key with the send counter at 1 and the given receive counter, none clears, another length is refused and clears; both caches are dropped. |
| TkipCrypt.TkipData.Encrypt | ieee80211/ieee80211_crypt_tkip.c:347-456 | Exactly with 8 and 4 bytes of room and a whole header, the buffer becomes the frame sealed with the mixed key of the current counter, and the sender's state is the next one; otherwise -1 and nothing changes. |
| TkipCrypt.TkipData.Decrypt | ieee80211/ieee80211_crypt_tkip.c:458-595 | Result, buffer, cache, pending counter and error count are those of the function, for every frame with addresses and every state. |
| TkipCrypt.TkipData.MicAdd | ieee80211/ieee80211_crypt_tkip.c:705-738 | Exactly with 8 bytes of room and a whole header, the Michael code of addresses and body under key bytes 16 to 23 is appended. |
| TkipCrypt.TkipData.MicVerify | ieee80211/ieee80211_crypt_tkip.c:787-834 | The code under key bytes 24 to 31 is checked and taken off, and only then the receive counter moves; a failure is counted and changes nothing else. |
| TkipFragments.PassesIffCollision | ieee80211/ieee80211_tx.c:183-226 | An MSDU reassembled from fragments that each carry a code passes the receiver's check exactly if its last fragment's code happens to be that of everything in front of it. |
| TkipFragments.RestoredIffOneFragment | ieee80211/ieee80211_rx.c:748-750 | Such an MSDU is restored exactly if it came in one fragment. |
| Fragmentation.ChunksJoined | ieee80211/ieee80211_tx.c:436-480 | The pieces of a payload joined are the payload. |
| Fragmentation.ChunkSizes | ieee80211/ieee80211_tx.c:395-402 | Number and last size computed by division are those of the pieces; all others are full. |
| Fragmentation.FitsPool | ieee80211/ieee80211_tx.c:373-402 | Every payload up to the Ethernet maximum, at every threshold, with checksum bytes and any cipher's overhead, needs at most eight fragments, none longer than the threshold. |
| Dot11.EncapsulationUndone | ieee80211/ieee80211_tx.c:160-181 | The SNAP header chosen for a protocol is recognised and removed by the receiver, which restores the Ethernet frame, for every protocol, AppleTalk and IPX included. |
| Transmit.Device.Xmit | ieee80211/ieee80211_tx.c:269-527 | Which frames are dropped, which fail because the pool is used up, with counters; any other is left in the next buffer of the pool as the header, SNAP and pieces in order, sealed one after the other, numbered, with the more-fragments bits, and the rest of the buffer is empty; a frame that is not built leaves the buffer alone. |
| Reassembly.FragCache.Find | ieee80211/ieee80211_rx.c:74-101 | The search, freeing entries older than two seconds on its way, is the function. |
| Reassembly.FragCache.Get | ieee80211/ieee80211_rx.c:104-153 | A first fragment takes the next slot in turn, another the slot it continues, or none. |
| Reassembly.FragCache.Reassemble | ieee80211/ieee80211_rx.c:693-744 | Cache and reply after a fragment are the function's: appended, rejected for its size, waiting or complete. |
| ReassemblyProofs.SearchFinds | ieee80211/ieee80211_rx.c:74-101 | The first live entry with key and predecessor is found, and exactly the expired ones passed are freed. |
| ReassemblyProofs.InvalidatedFrees | ieee80211/ieee80211_rx.c:156-179 | Of the live entries with a key, invalidation frees a given one exactly if no other stands in front of it. |
| ReassemblyProofs.AnyStep | ieee80211/ieee80211_rx.c:693-744 | Every fragment that starts no second entry under a key keeps the invariant: keys unique, and each entry made of fragments 0 to n of one MSDU that arrived in this order. |
| ReassemblyProofs.EveryRun | ieee80211/ieee80211_rx.c:693-744 | Over every run without such a start, whatever arrives, expires or finds no memory, each MSDU handed up is made of all fragments of one sender and sequence number, first to last, in order. |
| ReassemblyProofs.ClashBreaksUnique | ieee80211/ieee80211_rx.c:104-153 | A first fragment leaves keys unique exactly if no other slot than the one it takes holds its key live. |
| ReassemblyProofs.ReleasedOnlyIfFirst | ieee80211/ieee80211_rx.c:739-744 | The slot of a completed MSDU is released exactly if no live entry with its key stands in front of it. |
| ReassemblyClash.ClashHandsUpWrongMsdu | ieee80211/ieee80211_rx.c:571-842 | After a second start under a key, a finished entry stays live, a later last fragment is appended to it, and what ieee80211_rx hands up is no MSDU of the run, though every frame passes the duplicate filter. |
| ReassemblyClash.ClashHappens | ieee80211/ieee80211_rx.c:571-842 | Every receiver with open_wep, without one of the four keys, or without host_decrypt, in its first state, in managed or ad-hoc mode, can be made to do this by eight frames in the clear. |
| ReassemblyClash.OthersAreDeaf | ieee80211/ieee80211_rx.c:753-791 | Every other receiver hands up no frame in the clear but an EAPOL frame. |
| Receive.Receiver.IsDuplicate | ieee80211/ieee80211_rx.c:387-452 | Verdict and records per mode are those of the function, with and without memory for a new sender. |
| Receive.Receiver.Receive | ieee80211/ieee80211_rx.c:458-842 | For every frame and state, outcome and new state, that of the keys included, are those of the function that the end-to-end theorems are about; decrypt_mpdu is called for each protected frame, decrypt_msdu for each complete MSDU. |
| DataPath.ForeignStep | ieee80211/ieee80211_rx.c:458-842 | Whatever frame of another sender or MSDU arrives, our reassembly stays as it is while fewer than four slots were taken since. |
| DataPath.MsduArrives | ieee80211/ieee80211_rx.c:458-842 | All fragments of an MSDU, interleaved within two seconds with any frames of others that start fewer than four MSDUs, yield the MSDU with the last one, in a receiver that has no entry of its key and memory for its first fragment. |
| DataPath.EndToEnd | ieee80211/ieee80211_tx.c:269-527 | Every Ethernet frame sent in an ad-hoc network, at any threshold and with any link cipher, comes out byte for byte of any receiver without leftovers of its sequence number, across such interleavings; except one sent in the clear for which the receiver seems to have a key, which is dropped. |
| DataPath.ClearDeliveredIff | ieee80211/ieee80211_rx.c:753-791 | A frame in the clear is delivered exactly if the receiver does not decrypt, accepts frames in the clear, or has no key under the index read from the last fragment. |
| DataPath.EapolDropped | ieee80211/ieee80211_rx.c:273-310 | With a key in the first place, an ad-hoc receiver drops every unfragmented EAPOL frame that the sender left in the clear, whatever it received before. |
| LinkCiphers.WepFits | ieee80211/ieee80211_crypt_wep.c:137-299 | WEP with any key and index is a cipher the end-to-end theorem holds for. |
| LinkCiphers.CcmpFits | ieee80211/ieee80211_crypt_ccmp.c:231-404 | So is CCMP. |
| TxQueue.Queue.Xmit | ieee80211/ieee80211_softmac.c:2037-2095 | A frame is refused exactly if the queue is stopped with another parked; an accepted one is sent fragment by fragment and what the hardware does not take is parked, none lost, none twice. |
| TxQueue.Queue.WakeQueue | ieee80211/ieee80211_softmac.c:2139-2178 | Management frames go first, then parked fragments are sent on in order, as far as the hardware goes along. |
| TxQueue.Queue.ResetQueue | ieee80211/ieee80211_softmac.c:2121-2137 | What was parked is dropped, and nothing that was sent. |
| TxQueue.Queue.Execute | ieee80211/ieee80211_softmac.c:2037-2190 | Over every run and every behaviour of the hardware, sent and parked fragments together are the accepted frames' fragments, each once and in order, less what resets took from the end of a frame. |
| Association.Softmac.StopProtocol | ieee80211/ieee80211_softmac.c:2522-2543 | Cancels timer and retry but leaves a queued attempt; like the other handlers it is the step function's case. |
| Sequence.SentBear | ieee80211/ieee80211_tx.c:457-484 | With every cipher that leaves the header in the clear, all frames of an Ethernet frame bear its sequence number. |
| Sequence.SeqDiffers | ieee80211/ieee80211_tx.c:481-484 | No sequence number comes twice within 4096 frames. |
| TxPath.Path.Xmit | ieee80211/ieee80211_tx.c:408-519 | Which frames are refused, lost or taken; none is lost if the kernel's queue runs; the fragments sent and parked are those of the frames taken, each once and in order, until a lost frame is the sixteenth or later behind the parked one. |
| TxPath.Path.Heed | ieee80211/ieee80211_softmac.c:2037-2190 | So they are in every run, management frames included, in which Ethernet frames come only while the kernel's queue runs. |
| TxPath.Path.SendRegardless | ieee80211/ieee80211_softmac.c:2066-2093 | One parked frame and sixteen more that are sent regardless: what is sent and still owed is then not what was taken. |
| TxPath.Path.Wake | ieee80211/ieee80211_softmac.c:2098-2178 | Management frames go first, then the fragments that the parked frame's place holds now; what was owed is kept exactly if fewer than sixteen frames were built behind the parked one, unless 4096 sequence numbers were used since. |
| TxPath.StillThereIff | ieee80211/ieee80211_tx.c:414-415 | The last frame built in the parked frame's place is that frame itself exactly if fewer than sixteen were built after it. |
| Association.LinkedOnlyThrough | ieee80211/ieee80211_softmac.c:1911-1970 | In every run, linked is entered only by a positive association response, after an uninterrupted authenticated phase begun by a positive authentication response, after an uninterrupted authenticating phase begun by an association attempt. |
| Association.HarmlessKeepsInv | ieee80211/ieee80211_softmac.c:1249-1432 | In every run without the two hazards, each waiting state has the timer, attempt or retry that will end it. |
| Association.HazardSticks | ieee80211/ieee80211_softmac.c:2522-2543 | After either hazard, four harmless events lead to a state with nothing pending. |
| Association.StuckStays | ieee80211/ieee80211_softmac.c:2431-2472 | In that state every event but stopping changes nothing. |
| Association.LiveIffNoHazard | ieee80211/ieee80211_softmac.c:2522-2600 | All harmless continuations of an event stay live exactly if the event is no hazard. |
| ScanTable.SameIsSameKey | ieee80211/ieee80211_rx.c:1244-1260 | is_same_network is the equality of keys, hence an equivalence. |
| ScanTable.TableIsRecent | ieee80211/ieee80211_rx.c:1383-1452 | After any history of beacons and responses the table holds exactly the most recently heard networks, as many as fit, each once, with the time it was last heard. |
| ScanTable.Table.Search | ieee80211/ieee80211_rx.c:1383-1390 | One pass finds the first entry of the network and, if there is none, the first of the oldest entries. |
| ScanTable.Table.Insert | ieee80211/ieee80211_rx.c:1394-1422 | A free slot or the oldest entry's slot is reused, the new entry is last, and the free and used slots stay a partition of all. |
| ScanTable.Table.ProcessAll | ieee80211/ieee80211_rx.c:1315-1455 | The code's table after any history is the one TableIsRecent describes. |
| InfoElements.ReadNetwork | ieee80211/ieee80211_rx.c:1003-1242 | The walk over the elements of a frame reads what the function says, and fails exactly on an element longer than the rest or without a modulation. |
| InfoElements.SomeMode | ieee80211/ieee80211_rx.c:1213-1230 | In the 2.4 GHz band every frame whose elements can be walked has a mode, so it is never refused for lack of one. |
| InfoElements.ParseElement | ieee80211/ieee80211_rx.c:1041-1211 | A printed element in front is read as one step and the walk goes on right behind it, whatever follows. |
| ProbeResponse.ProbeResp | ieee80211/ieee80211_softmac.c:591-712 | The buffer allocated with the computed size is filled exactly, with the printed frame. |
| ProbeResponse.ReadsBack | ieee80211/ieee80211_softmac.c:591-712 | Reading a printed probe response gives BSSID, interval, capabilities, rates, extended rates, channel, security element and modulations of the network, and its name unless that counts as hidden. |
| ProbeResponse.NameKeptIff | ieee80211/ieee80211_rx.c:1051-1062 | The name read is the network's own exactly if it does not count as hidden or is empty. |
| ProbeResponse.SentWpaIs | ieee80211/ieee80211_softmac.c:701-708 | The security element sent is a well-formed one, and the station's own exactly outside ad-hoc mode, without an element, or with equal suites. |

## Left out

- The `rtl8187/` hardware driver, the wireless-extension ioctls, procfs and module plumbing.
- Kernel services: code under a lock is atomic; allocation, the clock, random bytes and the hardware's stopping of the
  queue are parameters; work items and timers are flags. Jiffies do not wrap around.
- Secrecy and forgery: nothing is said about the strength of AES, RC4 or Michael.
- Compile-time variants: of the two kernel crypto interfaces, the driver's own is the one modelled; the check for TKIP
  countermeasures is not compiled in.
- Raw and monitor mode, master mode, power saving, and synchronous scanning; of QoS only what CCMP authenticates.
- Replay rejection of TKIP and CCMP, which the code compiles out.
- Tables: CRC-32 is a function parameter of WEP and TKIP, and the S-box one of TKIP; the theorems hold for any.
- AesCipher.Context.SetKey: E and D are the halves of one array of 120 words, because with a 256-bit key the last turn
  of the code's loop writes four words behind E, before D is filled.
- CipherModes.Tfm.Crypt: source and destination may be the same list or apart, but not overlap otherwise; block
  buffers and chaining vector are in other memory; the walked addresses exist; no null chaining vector.
- Digest.Hash.Run: memory is one array in which the pages of a segment follow each other.
- CcmpCrypt.KeyData.Encrypt: the block cipher is a parameter, chosen by the key; the scratch blocks of the key
  structure are local arrays; headers have at least three addresses; the length field is cut off to 16 bits as in the
  code, so that bodies of 65536 bytes and more are not standard CCM.
- CcmpCrypt.KeyData.Decrypt: headers have at least three addresses.
- TkipCrypt.TkipData.Encrypt: frames have at least three addresses, or their header has.
- TkipCrypt.TkipData.Decrypt: frames have at least three addresses, or their header has.
- TkipCrypt.TkipData.MicVerify: frames too short to hold a code, for which the code's length goes below zero, are
  excluded; in the receive path they count as refused.
- Transmit.Device.Xmit: Ethernet frames of 8 to 13 bytes, of which the code reads bytes that are not there, and frames
  longer than the interface's maximum are excluded; a missing driver handler is not modelled; bytes reserved for the
  frame check sequence are counted, not filled.
- TxPath.Path.Heed: resets of the queue are not modelled there, but in TxQueue; the cipher leaves the header in the
  clear.
- Reassembly.FragCache.Reassemble: entries hold bytes instead of buffers; their capacity is the MTU and the header
  allowance, without the allocator's rounding up.
- Receive.Receiver.Receive: the hash buckets of senders in an ad-hoc network are one map; frames whose decryption
  leaves fewer bytes than their header are dropped; statistics are not kept; the byte behind a frame is a parameter.
- DataPath.EndToEnd: between two stations of one ad-hoc network, since an access point, which relays in infrastructure
  mode, is not part of this model; meanwhile nobody else uses the sender's address with its sequence number, no control
  frame comes in, and all fragments arrive in order within two seconds.
- LinkCiphers.CcmpFits: frames with headers shorter than three addresses are not opened.
- TkipLink.SenderToReceiver: for Ethernet frames that need one 802.11 frame, since TKIP does not restore others.
- TxQueue.Queue.SendMgmt: management frames are counted in their ring, whose order is not modelled.
- Association: a retry that already runs while it is being cancelled, and the scans that accompany the states.
- ScanTable.TableIsRecent: times are strictly increasing; signal smoothing, the copy in the current network and the
  decision to announce a network again are not modelled.
- InfoElements.ReadNetwork: frames shorter than the fixed fields are excluded; of the TIM element only the DTIM period
  is kept; bytes behind the frame count as zero.
- ProbeResponse.ProbeResp: in ad-hoc mode a security element of fewer than 18 bytes, of which the code writes bytes
  behind the element, is excluded.
- ProbeResponse.ReadsBack: in the 2.4 GHz band.
