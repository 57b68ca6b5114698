# get_signal_desktop_key, modelled in Dafny

The tool recovers the key of a Signal Desktop database. It has four steps:

1. **Config reader** (`getEncryptedKey`). It reads the hex-encoded encrypted key from the application's `config.json`.
2. **Credential-store clients**. They fetch a candidate password from the desktop credential store, over D-Bus.
   - `getSecret_SecretService` talks to the freedesktop.org Secret Service.
   - `getSecret_Kwallet` talks to KWallet.
3. **Key derivation**. PBKDF2-HMAC-SHA1 derives an AES-128 key from that password.
4. **Decryptor** (`decryptKey_linux_mac`). It decrypts the blob in AES-128-CBC with no padding removal. It then checks the trailing padding and renders the plaintext. Only a result made of `[a-z0-9]` is accepted.

The model follows the source file by file:

- `seqs.dfy` (`Seqs`): generic facts about sequences (regrouping concatenations, heads and ends, membership) that the other modules share.
- `bytes.dfy` (`Bytes`): bytes, blocks, the digits `std::hex` prints, and byte-to-character copies.
- `hex.dfy` (`Hex`): both overloads of `hexStringToBytes`, modelled as methods that fill an `array`. It also has the sanitiser and the reference encoder `bytesToHexString`.
- `printable.dfy` (`Printable`): `bytesToPrintableString`. A method runs the source's loop, carrying `prevwashex`, and is proved equal to a rendering function.
- `cbc.dfy` (`Cbc`): the AES-128 block cipher, passed in as a function. On top of it sit CBC chaining (NIST SP 800-38A, section 6.2) and PKCS#7 padding (RFC 5652, section 6.3), which the source's padding rule is compared against.
- `padding.dfy` (`Padding`): the trailing-padding loop of `decryptKey_linux_mac`.
- `decryptkey.dfy` (`DecryptKey`): `decryptKey_linux_mac` itself. PBKDF2 is a function-valued parameter. The salt `"saltysalt"`, 1 or 1003 iterations, the 16-byte key and the IV of 16 spaces are fixed constants.
- `text.dfy` (`Text`): `std::string::find` as a substring predicate.
- `dbus.dfy` (`DBus`): the session-bus connection `DBusCon`.
  - It is a class whose `trace` field records every request sent.
  - Each client receives the bus's answers as an immutable `Replies` value.
- `secretservice.dfy` (`SecretService`): `getSecret_SecretService`.
- `kwallet.dfy` (`KWallet`): `getSecret_Kwallet`. It updates the caller's `std::set` in place, modelled as the `SecretSet` class.
- `configkey.dfy` (`ConfigKey`): `getEncryptedKey`.
  - The regular expression `^\s*"encryptedKey":\s*"([a-zA-Z0-9]+)",?$` is written out as a staged scanner over the line.
  - The scanner is proved to accept exactly the lines the pattern describes.
  - The first-match loop over the file's lines is a method.

Three points of the code's control flow shape the model:

- **Secret Service teardown.** `Lock` and the session `Close` are sent only on the success path (`getsecret_secretservice.cc:192-220`). An early return sends neither.
- **KWallet empty password map.** An empty password map for a matching folder ends the whole KWallet run (`getsecret_kwallet.cc:115-119`). The remaining folders are not read and neither `close` call is sent.
- **KWallet teardown.** The two KWallet `close` calls follow only a completed folder loop (`getsecret_kwallet.cc:128-142`).

## Model

| member | source | states |
|---|---|---|
| Bytes.HexDigit | decryptkey_linux_mac.cc:47-48 | The digit `std::hex` prints for 0..15 is `'0'+v` below ten and `'a'+v-10` above, always lower case. |
| Bytes.HexPair | decryptkey_linux_mac.cc:47-48 | `setw(2) << setfill('0') << hex` prints every byte as exactly two characters. |
| Bytes.BytesToString | getsecret_secretservice.cc:222 | Building a `std::string` from a byte vector keeps its length and every byte's value. |
| Text.Find | getsecret_secretservice.cc:162-164 | `find(p, from)` returns the first position at or after `from` where `p` occurs, or `npos` when there is none. |
| Text.FindAgreesWithContains | getsecret_secretservice.cc:162-164 | `find(p) != npos` holds exactly when `p` occurs at some position of the string. |
| Text.ContainsIffOccurs | getsecret_secretservice.cc:162-164 | The recursive containment test (`p` starts the string or occurs after its first character) holds exactly when `p` occurs at some position. |
| Text.ContainsLeft | getsecret_secretservice.cc:162-164 | Appending text to a string keeps every substring it holds. |
| Text.ContainsRight | getsecret_secretservice.cc:162-164 | Prepending text to a string keeps every substring it holds. |
| Text.MissingFirstChar | getsecret_secretservice.cc:162-164 | A string without the first character of `p` does not hold `p`. |
| Hex.DigitValue | decryptkey_linux_mac.cc:67-75 | On `[0-9A-Fa-f]`, `charToInt` gives the digit's value in 0..15. |
| Hex.CharToInt | decryptkey_linux_mac.cc:67-75 | `charToInt` maps a hex digit into 0..15 and reads back the digit `std::hex` prints, lower-casing `A`..`F`. Of the other characters only `W`..`` ` `` land in 0..15, as there is no test for `a`..`f`. |
| Hex.PairToByte | decryptkey_linux_mac.cc:79 | On two hex digits the stored byte is `16*v(hi) + v(lo)`, with no truncation. |
| Hex.PairRendersBack | decryptkey_linux_mac.cc:67-79 | Printing the byte of two hex digits gives back those digits in lower case. |
| Hex.DecodePairs | decryptkey_linux_mac.cc:77-79 | The decoded output has half the input's length, byte `k` coming from characters `2k` and `2k+1`. |
| Hex.HexStringToBytesRaw | decryptkey_linux_mac.cc:58-82 | The raw overload succeeds iff the input length is even and `outsize == insize/2`; on success `out` holds the decoded pairs, otherwise `out` is untouched. |
| Hex.Sanitize | decryptkey_linux_mac.cc:86-90 | The sanitised string is no longer than the input and holds only `[0-9A-Fa-f]`. |
| Hex.SanitizeLength | decryptkey_linux_mac.cc:86-90 | Sanitising deletes exactly the non-hex characters; it is the identity exactly on all-hex input. |
| Hex.SanitizeAppend | decryptkey_linux_mac.cc:88-90 | `remove_if` keeps the surviving characters in order: sanitising distributes over concatenation. |
| Hex.HexStringToBytes | decryptkey_linux_mac.cc:84-93 | The string overload succeeds iff the sanitised length is even and matches `outsize`; it then writes the decoded sanitised input, otherwise nothing. |
| Hex.DecodeSucceedsUnsanitisedSize | decryptkey_linux_mac.cc:153-155 | With the buffer sized from the unsanitised length, decoding succeeds iff nothing is stripped from an even-length string or exactly one character from an odd-length one. |
| Hex.HexDigits | decryptkey_linux_mac.cc:99-102 | The encoder's digits are two per byte. |
| Hex.HexPairDigits | decryptkey_linux_mac.cc:99-102 | Every printed byte is two hex digits that decode back to that byte. |
| Hex.SanitizeHexBody | decryptkey_linux_mac.cc:99-102 | Sanitising the space-separated encoder output leaves exactly its digits. |
| Hex.DecodeHexDigits | decryptkey_linux_mac.cc:77-79 | Decoding the encoder's digits gives back the bytes. |
| Hex.HexBodyLayout | decryptkey_linux_mac.cc:99-102 | The encoder's digit part is `3n-1` characters for `n` bytes: byte `k` at `3k..3k+2`, a space after every byte but the last. |
| Hex.BytesToHexString | decryptkey_linux_mac.cc:95-104 | `bytesToHexString` is `"(hex:) "` followed by that layout. |
| Hex.HexRoundTrip | decryptkey_linux_mac.cc:95-104 | The string overload inverts the encoder's digit part: it succeeds with `outsize == length` and returns the original bytes. |
| Hex.PrefixedRenderingDoesNotDecode | decryptkey_linux_mac.cc:98 | With the `"(hex:) "` prefix, the `e` survives sanitising, so the length is odd and decoding always fails. |
| Hex.AsWrittenGuardAgrees | decryptkey_linux_mac.cc:78 | For non-empty input, the wrapping guard `i < insize - 1` equals the model's `i + 1 < insize`. |
| Hex.AsWrittenEmptyInputOverruns | decryptkey_linux_mac.cc:60-79 | With `insize == outsize == 0` the size check passes and the wrapped guard admits a write to `out[0]` of an empty buffer. |
| Printable.IsPrint | decryptkey_linux_mac.cc:41 | A byte is printable iff its character lies in `' '`..`'~'`. |
| Printable.RenderingLength | decryptkey_linux_mac.cc:39-54 | Each iteration appends one to six characters. |
| Printable.Render | decryptkey_linux_mac.cc:35-56 | The rendering of `n` bytes has between `n` and `6n` characters, and is the bytes themselves when all are printable. |
| Printable.BytesToPrintableString | decryptkey_linux_mac.cc:35-56 | The loop, carrying `prevwashex`, produces exactly the rendering of `data[..length]`. |
| Printable.AllPrintableIsIdentity | decryptkey_linux_mac.cc:41-51 | A buffer of printable bytes renders as itself, character for byte. |
| Printable.LoneHexByte | decryptkey_linux_mac.cc:43-49 | A lone non-printable byte renders as `0x` and two lower-case hex digits, with no space. |
| Printable.MixedRenderingHasSpace | decryptkey_linux_mac.cc:43-49 | Any buffer of two or more bytes that holds a non-printable byte renders with a space. |
| Cbc.CbcChain | decryptkey_linux_mac.cc:185-213 | CBC decryption of whole blocks keeps the length. |
| Cbc.CbcDecrypt | decryptkey_linux_mac.cc:185-213 | With padding disabled, `EVP_DecryptUpdate`/`Final_ex` succeed iff the ciphertext is whole blocks, and then the plaintext has its length. |
| Cbc.CbcRoundTrip | decryptkey_linux_mac.cc:247-262 | When the inverse cipher inverts the forward one, CBC decryption inverts CBC encryption under the same key and IV. |
| Cbc.Pkcs7PadCount | decryptkey_linux_mac.cc:247-262 | PKCS#7 adds 1..16 bytes, reaching the next multiple of 16. |
| Cbc.Pkcs7Pad | decryptkey_linux_mac.cc:247-262 | The padded message is the message followed by `n` copies of `n`, a whole number of blocks. |
| Cbc.Pkcs7Unpad | decryptkey_linux_mac.cc:247-262 | PKCS#7 unpadding returns a proper prefix. |
| Cbc.Pkcs7RoundTrip | decryptkey_linux_mac.cc:247-262 | PKCS#7 unpadding inverts PKCS#7 padding. |
| Padding.PadCount | decryptkey_linux_mac.cc:221-222 | The pad count is `len % 16`, or 16 when that is 0: in 1..16, and `len` minus it is a whole number of blocks. |
| Padding.RealSize | decryptkey_linux_mac.cc:221-222 | `realsize` is a multiple of 16, below `len` by at most 16. |
| Padding.TailOk | decryptkey_linux_mac.cc:221-232 | An accepted buffer is non-empty, has `0 <= realsize < len`, and its last byte equals the pad count. |
| Padding.CheckPadding | decryptkey_linux_mac.cc:221-232 | With `n = len % 16`, or 16 when that is 0, the loop passes iff each of the last `n` bytes equals `n`. `realsize` is then `len - n`, a valid index bound. An empty buffer is refused instead of read at a negative index. |
| Padding.TailOkAgreesWithPkcs7 | decryptkey_linux_mac.cc:221-232 | Whatever the length-based rule accepts, PKCS#7 also accepts, stripping the same bytes. |
| Padding.SingleMutationRejected | decryptkey_linux_mac.cc:227-231 | Changing any one checked trailing byte makes the check fail. |
| Padding.TailOkOnPkcs7Padded | decryptkey_linux_mac.cc:247-262 | On PKCS#7-padded input the rule accepts iff the message was a whole number of blocks, and then strips exactly the padding. |
| Padding.ThirtyThreeByteMessageRefused | decryptkey_linux_mac.cc:249-250 | The 33-byte example pads to 48 bytes ending in fifteen `0x0f`; PKCS#7 unpads it but the rule refuses it. |
| Padding.ThirtyTwoByteMessageAccepted | decryptkey_linux_mac.cc:247-248 | The 32-byte example pads with a full block of `0x10`; the rule accepts it and `realsize` is 32. |
| Padding.AsWrittenEmptyBufferUnderruns | decryptkey_linux_mac.cc:221-228 | `realsize` is negative only for an empty buffer, and is then -16. |
| DecryptKey.VersionHeader | decryptkey_linux_mac.cc:159-163 | The expected header is three bytes (`v10` on macOS, `v11` elsewhere). |
| DecryptKey.DecryptKeyLinuxMac | decryptkey_linux_mac.cc:109-242 | The method returns the pipeline's result on the decoded buffer, which holds the decoded sanitised hex whenever decoding succeeds. It warns iff key derivation succeeded and the first three bytes differ from the platform header. |
| DecryptKey.HeaderMismatchOnlyWarns | decryptkey_linux_mac.cc:164-165 | Blobs that differ only in their header decrypt to the same result. |
| DecryptKey.CheckPlaintext | decryptkey_linux_mac.cc:221-241 | A buffer whose padding fails gives `""`. A non-empty result passed the padding check, is `[a-z0-9]` only, and, from two bytes on, is the plaintext before the padding. |
| DecryptKey.DecryptData | decryptkey_linux_mac.cc:130-241 | A failed key derivation or a blob shorter than the header gives `""`. A non-empty key needs a header plus at least two whole blocks, and is `[a-z0-9]` only. |
| DecryptKey.KeyNeedsTwoBlocks | decryptkey_linux_mac.cc:221-241 | A key comes only out of a plaintext of at least 32 bytes. |
| DecryptKey.CharsetGateOnRendering | decryptkey_linux_mac.cc:234-241 | The gate passes iff every byte is `[a-z0-9]`, or the buffer is one non-printable byte (rendered `0x..`). |
| DecryptKey.GatePassedByLongRendering | decryptkey_linux_mac.cc:234-241 | A rendering of two or more bytes that passes the gate is the bytes themselves. |
| DecryptKey.CheckPlaintextOnBlocks | decryptkey_linux_mac.cc:221-241 | On whole blocks, acceptance needs at least 32 bytes ending in a full `0x10` block. The key is the rest, a multiple of 16 long and `[a-z0-9]` only. |
| DecryptKey.AcceptedKeyIsPlaintextPrefix | decryptkey_linux_mac.cc:185-241 | A non-empty result means the key was derived and the blob is a header plus whole blocks. The CBC plaintext then ends in sixteen `0x10` bytes, and the result is everything before them. |
| DecryptKey.KeyBytes | decryptkey_linux_mac.cc:234-241 | A `[a-z0-9]` key is the copy of printable bytes of the same length. |
| DecryptKey.EncryptThenDecrypt | decryptkey_linux_mac.cc:130-241 | Take a `[a-z0-9]` key, PKCS#7-pad it, CBC-encrypt it with the derived key and IV, and put any header in front. Decrypting that blob gives back the key iff its length is a multiple of 16, and `""` otherwise. |
| DecryptKey.OneLetterKeyReachesEmptyDecode | decryptkey_linux_mac.cc:153-155 | The config line `"encryptedKey": "g"` is accepted, and its key makes the decoder run with `insize == outsize == 0`. |
| DecryptKey.TwoLetterKeyReachesShortBlob | decryptkey_linux_mac.cc:153-198 | The config line `"encryptedKey": "ab"` is accepted and decodes to the 1-byte blob `[0xab]`. The source's `output_length` would be -2; the model returns `""`. |
| DecryptKey.HeaderOnlyBlobReachesEmptyPadding | decryptkey_linux_mac.cc:196-228 | A 3-byte blob decrypts to an empty buffer whose source `realsize` is -16; the model returns `""`. |
| DBus.Connection.constructor | getsecret_secretservice.cc:28 | A new connection has sent nothing. |
| DBus.Connection.CallMethod | getsecret_secretservice.cc:37-42 | `callMethod` appends exactly one method call to the record. |
| DBus.Connection.MatchSignal | getsecret_secretservice.cc:98 | `matchSignal` appends the match rule and reports the bus's answer. |
| DBus.Connection.Wait | getsecret_secretservice.cc:112 | `waitSignal` appends the wait and reports whether the signal arrived. |
| SecretService.FirstChosen | getsecret_secretservice.cc:146-190 | The first item whose label passes and whose secret is non-empty; all earlier items are not chosen. |
| SecretService.GetSecretSecretService | getsecret_secretservice.cc:24-224 | The returned string is byte for byte the result secret, and the requests sent are exactly the run's trace. |
| SecretService.Unlocked | getsecret_secretservice.cc:95-222 | After `Unlock`, the client obtains the result secret and appends the prompt, `Locked`, item and teardown requests of the run. |
| SecretService.Listed | getsecret_secretservice.cc:137-220 | From the item list on, the secret and the appended requests are those of the run. |
| SecretService.ScanItems | getsecret_secretservice.cc:145-190 | The loop ends with the secret of the first chosen item, or with nothing. It appends exactly the label and secret reads of the items up to that one; with a chosen item, the `Lock` and `Close` the caller sends next complete the run's item stage. |
| SecretService.VisitItem | getsecret_secretservice.cc:147-188 | One iteration reads the label, and requests the secret only when the label passes; it keeps a secret exactly when the item is chosen (label passes, secret non-empty). |
| SecretService.PromptIfAsked | getsecret_secretservice.cc:95-114 | A prompt other than `"/"` adds the match rule, the `Prompt` call and the wait; `"/"` adds nothing. |
| SecretService.LockedCheck | getsecret_secretservice.cc:116-141 | From the `Locked` check on, the secret is the run's result and the appended requests are `Get(Locked)` and the rest of the run. |
| SecretService.ScanSecretIsFirstChosen | getsecret_secretservice.cc:146-190 | The loop's secret is that of the first chosen item, or empty when no item is chosen. |
| SecretService.ScanRunStopsAtFirstChosen | getsecret_secretservice.cc:146-220 | The item stage visits the items up to and including the first chosen one, then sends `Lock` and `Close`; with no chosen item it visits every item and sends neither. |
| SecretService.UnchosenRunTrace | getsecret_secretservice.cc:117-196 | A run that reaches the scan but chooses nothing is the preamble followed by a visit of every item. |
| SecretService.EarlyTraceIsPrefix | getsecret_secretservice.cc:29-141 | A run that stops before the scan sends a prefix of the preamble. |
| SecretService.NoTeardownBeforeScan | getsecret_secretservice.cc:29-141 | A run that stops before the scan sends neither `Lock` nor `Close`. |
| SecretService.LabelMatches | getsecret_secretservice.cc:157-165 | A label passes iff it holds "Chrome" or "Chromium", holds "Safe Storage" or "Keys", and does not hold "Control". |
| SecretService.ChromiumSafeStorageAccepted | getsecret_secretservice.cc:157-165 | "Chromium Safe Storage" passes the label heuristic. |
| SecretService.ChromeSafeStorageAccepted | getsecret_secretservice.cc:157-165 | "Chrome Safe Storage" passes the label heuristic. |
| SecretService.ChromiumKeysAccepted | getsecret_secretservice.cc:157-165 | "Chromium Keys" passes the label heuristic. |
| SecretService.ControlEntryRefused | getsecret_secretservice.cc:160 | "Chromium Safe Storage Control" is refused. |
| SecretService.OtherBrowserRefused | getsecret_secretservice.cc:158 | "Firefox Keys" is refused. |
| SecretService.BrowserStoreLabel | getsecret_secretservice.cc:157-165 | Every "Chrome/Chromium" + " " + "Safe Storage/Keys" label passes. |
| SecretService.BrowserStoreNamed | getsecret_secretservice.cc:157-159 | Such a label holds both the browser name and the store name. |
| SecretService.BrowserStoreNotControl | getsecret_secretservice.cc:160 | Such a label does not hold "Control". |
| SecretService.ResultIsFirstChosenSecret | getsecret_secretservice.cc:145-196 | A secret is returned iff the scan is reached and some item is chosen. It is then the secret of the first chosen item in list order. |
| SecretService.AbortPoints | getsecret_secretservice.cc:29-196 | Each of the early returns yields no secret. The run stops: with no requests on a failed connection, after `OpenSession` on an empty session, after `Unlock` on an empty prompt. A locked collection, an empty item list or no chosen item yields nothing too. |
| SecretService.PromptBranch | getsecret_secretservice.cc:95-122 | Prompt `"/"`: `OpenSession`, `Unlock`, `Get(Locked)`. Any other prompt inserts the match rule, `Prompt` and the wait, in that order, before `Get(Locked)`. |
| SecretService.WaitOutcomeIgnored | getsecret_secretservice.cc:98-122 | Neither a refused match rule nor a timed-out wait changes the requests or the result. |
| SecretService.ScanEventShape | getsecret_secretservice.cc:149-173 | Every scan request is a label read of a listed item, or a session secret read of a listed item whose label passed. |
| SecretService.TeardownOnlyOnSuccess | getsecret_secretservice.cc:192-220 | `Lock` and session `Close` are sent iff a secret was found, and are then the last two requests, in that order. |
| SecretService.SecretsRequestedOnlyForPassingLabels | getsecret_secretservice.cc:157-173 | In every run, each `GetSecret` names a listed item whose label passed and carries the opened session. |
| SecretService.ScanVisitsInOrder | getsecret_secretservice.cc:146-154 | A scan reads the labels of the given items in list order, each once. |
| SecretService.ItemsVisitedInOrder | getsecret_secretservice.cc:145-190 | The label reads of a run are the items in list order, up to and including the chosen one. With no chosen item all items are read; a run that stops before the scan reads none. |
| SecretService.ChosenRunTrace | getsecret_secretservice.cc:117-220 | A successful run is: preamble, scan up to the chosen item, `Lock`, `Close`. |
| SecretService.ChosenRunReadsLabels | getsecret_secretservice.cc:146-188 | A successful run reads the labels of the items up to and including the chosen one. |
| SecretService.UnchosenRunReadsLabels | getsecret_secretservice.cc:146-196 | A run that reaches the scan but chooses nothing reads every item's label. |
| SecretService.NoScanReadsNoLabel | getsecret_secretservice.cc:29-141 | A run that stops before the scan reads no label. |
| KWallet.NatToString | getsecret_kwallet.cc:36-37 | `std::to_string` of a non-negative number is a non-empty run of decimal digits. |
| KWallet.IntToString | getsecret_kwallet.cc:36-37 | `std::to_string` starts with `-` exactly for negative numbers. |
| KWallet.NatToStringInjective | getsecret_kwallet.cc:36-37 | Distinct non-negative numbers print differently. |
| KWallet.IntToStringInjective | getsecret_kwallet.cc:36-37 | Distinct numbers print differently. |
| KWallet.Destination | getsecret_kwallet.cc:36 | The bus name is `org.kde.kwalletd`, then `-` iff the version is negative, then decimal digits. |
| KWallet.ObjectPathOf | getsecret_kwallet.cc:37 | The object path is `/modules/kwalletd`, then `-` iff the version is negative, then decimal digits. |
| KWallet.DaemonNamesInjective | getsecret_kwallet.cc:36-37 | Different versions address different bus names and different object paths. |
| KWallet.DaemonNames | getsecret_kwallet.cc:36-37 | Versions 6 and 5 address `org.kde.kwalletd6` at `/modules/kwalletd6` and `org.kde.kwalletd5` at `/modules/kwalletd5`. |
| KWallet.SecretSet.Insert | getsecret_kwallet.cc:123 | `insert` adds the value, and a value already present is not duplicated. |
| KWallet.GetSecretKwallet | getsecret_kwallet.cc:24-147 | A null set means no requests and no change. Otherwise the set gains exactly the values found and nothing is removed; the requests are the run's trace. |
| KWallet.FolderLoop | getsecret_kwallet.cc:90-142 | The loop completes iff no matching folder has an empty map. The set gains the values of the folders read; the closes follow only on completion. |
| KWallet.ScanFolders | getsecret_kwallet.cc:90-125 | The loop reads the folders up to the first matching folder with an empty map, or all of them; the set gains what those folders hold and the trace gains one `passwordList` per matching folder read. |
| KWallet.ReadFolder | getsecret_kwallet.cc:92-123 | A folder is requested only when its name matches; its wanted values are inserted unless its map is empty, which stops the run. |
| KWallet.InsertWanted | getsecret_kwallet.cc:121-123 | Exactly the values under the two wanted keys are inserted. |
| KWallet.InsertStep | getsecret_kwallet.cc:121-123 | Visiting one more map key adds its value exactly when the key is wanted. |
| KWallet.AbortAt | getsecret_kwallet.cc:90-119 | The first matching folder with an empty password map; no earlier folder is one. |
| KWallet.Selected | getsecret_kwallet.cc:121-123 | A value is taken iff it is stored under exactly "Chromium Safe Storage" or "Chrome Safe Storage". |
| KWallet.SelectedAtMostTwo | getsecret_kwallet.cc:121-123 | One folder contributes at most two values. |
| KWallet.WantedKeysAreLabels | getsecret_kwallet.cc:121-123 | Both wanted keys would also pass the Secret Service label test. |
| KWallet.HarvestMembers | getsecret_kwallet.cc:90-124 | A value is harvested iff some matching folder read holds it under a wanted key. |
| KWallet.FoundMembers | getsecret_kwallet.cc:24-125 | A run adds a value iff the run reaches the folders and a matching folder before the first empty map holds it under a wanted key. |
| KWallet.EarlyReturns | getsecret_kwallet.cc:29-88 | A missing bus, an empty wallet name, a negative handle or an empty folder list ends the run before any folder is read. Each case has its exact request prefix, adds nothing and closes nothing. |
| KWallet.PasswordEventShape | getsecret_kwallet.cc:90-106 | Every request of the folder loop is a `passwordList` of a matching folder among those read. |
| KWallet.TraceOfFolders | getsecret_kwallet.cc:42-142 | A run that reaches the folders sends `networkWallet`, `open`, `folderList`, then the folder loop's requests. |
| KWallet.ClosesOnlyOnCompletion | getsecret_kwallet.cc:115-142 | `close(wallet)` then `close(handle)` are the last two requests iff every folder was read; any other run sends no `close`. |
| KWallet.CompletedRunCloses | getsecret_kwallet.cc:125-142 | A run that reads every folder ends with `close(wallet)` then `close(handle)`. |
| KWallet.AbortedRunNoClose | getsecret_kwallet.cc:115-119 | A run ended by an empty password map sends no `close`. |
| KWallet.EmptyMapEndsRun | getsecret_kwallet.cc:115-119 | An empty map ends the run right after its `passwordList`: no later folder is read and nothing is closed. |
| KWallet.EarlierValuesKept | getsecret_kwallet.cc:115-123 | Values inserted from folders before an empty map remain in the set. |
| KWallet.FolderMatches | getsecret_kwallet.cc:92-98 | A folder is read iff its name holds "Chrome" or "Chromium" and holds "Safe Storage" or "Keys". |
| KWallet.FolderHeuristicDropsControl | getsecret_kwallet.cc:92-98 | The folder predicate is the label predicate without its "Control" exclusion. |
| KWallet.ControlFolderRead | getsecret_kwallet.cc:92-98 | The folder "Chromium Safe Storage Control" is read. |
| ConfigKey.SpaceRun | getencryptedkey.cc:40 | The leading `\s*` run is all white space and maximal. |
| ConfigKey.AlnumRun | getencryptedkey.cc:40 | The leading `[a-zA-Z0-9]` run is maximal. |
| ConfigKey.Match | getencryptedkey.cc:40-46 | A matching line yields a non-empty `[a-zA-Z0-9]` capture. |
| ConfigKey.MatchWithTail | getencryptedkey.cc:40 | Indent, key name, gap, quoted value, then a tail: the line matches iff the tail is empty or one comma, and yields the value. |
| ConfigKey.RenderedLineMatches | getencryptedkey.cc:40 | Every line the pattern describes is accepted with its value. |
| ConfigKey.LineParts | getencryptedkey.cc:40 | An accepted line splits into the pattern's parts. |
| ConfigKey.MatchedLineIsRendered | getencryptedkey.cc:40-46 | Every accepted line is one the pattern describes, and the capture is its value. |
| ConfigKey.MatchIffRendered | getencryptedkey.cc:40-46 | `regex_match` yields `key` iff the line is a well-formed key line with that value. |
| ConfigKey.CarriageReturnRejected | getencryptedkey.cc:40-46 | A line ending in `\r` (a CRLF file) never matches. |
| ConfigKey.SpaceBeforeColonRejected | getencryptedkey.cc:40 | White space between `"encryptedKey"` and `:` makes the line fail. |
| ConfigKey.KeyNameCaseSensitive | getencryptedkey.cc:40 | `"EncryptedKey":` does not match. |
| ConfigKey.TypicalLineMatches | getencryptedkey.cc:40 | `  "encryptedKey": "<key>",` yields the key. |
| ConfigKey.PlainLineMatches | getencryptedkey.cc:40 | `"encryptedKey": "<key>"`, with no indent and no comma, yields the key. |
| ConfigKey.FirstMatch | getencryptedkey.cc:43-56 | The position where the loop stops: within the file, and a matching line when inside it. |
| ConfigKey.NoMatchBeforeFirst | getencryptedkey.cc:43-56 | No line before that position matches. |
| ConfigKey.GetEncryptedKey | getencryptedkey.cc:26-68 | An unopenable file gives `""` having read nothing. Otherwise the result is the first matching line's capture, or `""`, and reading stops right after that line. |
| ConfigKey.FirstKeyFound | getencryptedkey.cc:43-64 | A key is returned iff some line matches, and it is then `[a-zA-Z0-9]` only. |
| ConfigKey.LaterLinesIgnored | getencryptedkey.cc:43-53 | Lines after the first matching one never change the result. |

## Left out

- PBKDF2 (`PKCS5_PBKDF2_HMAC_SHA1`) and the AES-128 block cipher are foreign primitives. They are function-valued parameters; a failing PBKDF2 call is `None`. CBC chaining and the no-padding rule are modelled on top of the cipher.
- `EVP_CIPHER_CTX_new` and `EVP_DecryptInit_ex` failures are not modelled. Both only return `""`, and the cipher is a total function here.
- `DecryptKey.DecryptKeyLinuxMac`: when decoding fails, the source leaves the `new[]` buffer uninitialised. The ghost out-parameter `data` stands for its arbitrary contents, and the contract fixes them only when decoding succeeds.
- `DecryptKey.DecryptKeyLinuxMac`: a blob of fewer than 3 bytes returns `""` with no warning. The source would read past the buffer in `memcmp` and request a negative-size `new[]` (see Findings).
- `std::isprint` on a signed `char` is undefined for bytes from 0x80 on. Those bytes count as non-printable; 0x20..0x7E are printable.
- `DBusCon` (`dbuscon.h`) is not part of this model: its transport, message encoding and the typed `get<>` extraction. A client receives what each `get<>` returns as a field of its `Replies` value, and the connection records requests only.
  - The `Locked` read defaults to `true` (`get<bool>("v", 0, true)`); this is folded into `Replies.locked`.
  - The KWallet handle is read as `get<int32_t>("i", 0 - 1)`; the meaning of that argument is not visible, so the handle is simply the `Replies.handle` field.
- The 20 × 2500 ms wait and the signal's contents (dismissed or not) are not modelled. The wait's outcome is a boolean answer that the proofs show does not matter.
- `KWallet.GetSecretKwallet`: the order in which `std::map` entries are visited is not modelled. Insertion into a set makes it irrelevant to the result.
- `main.cc` and `main.h` are not part of this model: argument parsing, `HOME`, the fallback between clients, and the declarations. `main.h` declares set-based client signatures that disagree with the string-returning `getSecret_SecretService`.
- All `g_verbose` logging and every console message are left out.
- `bytesToHexString` is modelled only as the reference encoder of the hex round trip.
- `std::ifstream`/`getline` file access is left out. The file is `None` when it cannot be opened, and otherwise its lines without their `\n`.
- `std::regex` is a hand-written scanner for the one pattern, proved to accept exactly the lines the pattern describes. The `m.size() == 2` test always holds for this pattern, which has one group, and is not modelled.
- Integer widths are not modelled:
  - `data_length` and `int output_length`;
  - the `int` handle, which holds any value the reply gives;
  - `unsigned int length` of `bytesToPrintableString`.

  Only the `uint64_t` wrap-around that matters (`insize - 1`) is written out, in `Hex.AsWrittenGuard`.

## Findings

| source | as written | input that shows it | evidently intended | confidence | as-written member | corrected member |
|---|---|---|---|---|---|---|
| decryptkey_linux_mac.cc:78 | `for (uint i = 0; i < insize - 1; i += 2)` with `uint64_t insize`: for `insize == 0` the bound wraps to 2^64-1. The size check passes with `outsize == 0`, so the loop writes `out[0]` of a zero-byte buffer and keeps going. | A config line `"encryptedKey": "g"`: the key sizes a 0-byte buffer and sanitises to the empty string. | No iteration for an empty input (`i + 1 < insize`). | not executed | Hex.AsWrittenEmptyInputOverruns | Hex.HexStringToBytesRaw |
| decryptkey_linux_mac.cc:221-228 | `realsize = output_length - 16` when `output_length == 0`, so the padding loop reads `output[-16]`. | A blob holding only the 3-byte header, e.g. the encrypted key `763131`. | Refuse a buffer shorter than its pad count. | not executed | Padding.AsWrittenEmptyBufferUnderruns | Padding.CheckPadding |
| decryptkey_linux_mac.cc:153-198 | No length check before `memcmp(data, header, 3)`. `int output_length = data_length - 3` is then negative and passed to `new[]`. | A config line `"encryptedKey": "ab"`: the 1-byte blob `[0xab]`, `output_length == -2`. | Refuse a blob shorter than its header. | not executed | DecryptKey.TwoLetterKeyReachesShortBlob | DecryptKey.DecryptKeyLinuxMac |
