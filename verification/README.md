# Attestation on OP-TEE: a verified model

This project models the remote attestation code of the repository and proves what it is for.

The core is the CBOR encoder QCBOR with its output buffer. Opening a map, an array or a wrapped byte
string writes nothing; the close inserts the head and slides everything behind it to the right.
`qcbor_encode.dfy` and `useful_buf.dfy` do this in place, one class per C structure, and are proved
against the state machine of `encoder_spec.dfy`, one function per public call with the branches and error
codes of the C code. About that state machine are the theorems: every run keeps the levels and the data
in order (`encoder_safety.dfy`), size calculation decides which buffers suffice (`size_calculation.dfy`),
the calls of a forest leave its bytes (`cbor_forest.dfy`), which calls are accepted is known for every
sequence (`encoder_endings.dfy`, `encoder_legal.dfy`), a decoder written from RFC 8949 reads every
well-formed forest back (`cbor_decoder.dfy`, `open_bytes.dfy`), and byte strings built in place equal
those that are added (`bstr_wrap.dfy`, with the errors that stay in `encoder_stuck.dfy`).
`encoder_run.dfy` makes any list of calls on the class, so that these theorems hold of it.

On the encoder stand the PSA token (`psa_claims.dfy`, `psa_lengths.dfy`, `token_limit.dfy`), the
COSE_Sign1 message (`cose_sign1.dfy`) and the functions of `cbor.c` that write them (`attestation.dfy`).

Beside it stand the lossless narrowing of floats (`ieee754.dfy`), the measurements of device and
provisioning scripts (`region_hash.dfy`, `arot_refval.dfy`, `core_hash.dfy`), the replay of a
measurement list (`pcr10.dfy`), the eMMC driver (`usdhc_bus.dfy`, `imx_usdhc.dfy`) and its exchange of
RPMB frames (`rpmb_native.dfy`), base64 (`base64.dfy`) and the input buffer (`useful_input_buf.dfy`).

## How the parts are modelled

- Integers are unbounded and the C widths are written out: counts in 16 bits, lengths of type size_t up
  to SIZE_MAX of 64 bits, the wrap of an unsigned subtraction where the code can reach it. Pointers are
  arrays with an offset. Usage guards of QCBOR are on.
- SHA-256 is any function on byte strings, and to 32 bytes where that matters; nothing is assumed about
  collisions. Signing is any function from bytes to a signature of at most 64 bytes or a failure.
- What the driver reads from hardware, status bits, responses, data, time-outs, comes from an arbitrary
  environment, so that every behaviour of controller and card is covered. The card keeps its PART_CONF
  octet, which a SWITCH writes and EXT_CSD reports; CMD0 may change the partition in it, and a SWITCH
  without response may have been carried out. Another master may act between calls and leaves at least one of the checked registers different. Registers keep what is
  written to them; a register is the set of its one bits.
- In `ImxUsdhc` and `Attestation` some C functions are split into a few methods in sequence, each with the
  state in between as its contract.

## Where the code is not as its comments say

- A comment at qcbor_encode.c:207-209 says that errors are never cleared. OpenMapOrArray assigns the error
  unconditionally (qcbor_encode.c:890); `EncoderSafety.ErrorForgottenIff` says when that clears one,
  `EncoderLegal.ForgottenErrorExample` shows an illegal sequence that is accepted.
  `EncoderLegal.AcceptsExactlyLegal` is about the sequences in which no Open comes after a violation or
  overflows a count, `EncoderLegal.AcceptedIff` about all of them.
- Items may be added while a byte string is open, and are then in front of what the caller writes there:
  `OpenBytesGuard.InsideOpenBytesExample`. The caller must keep from it, `OpenBytesGuard.GuardedReadsBack`.
- MAX_NONCE_SIZE of 64 bytes (remote_attestation.c:27) is checked nowhere, line 160 refuses only an empty
  nonce; what is delivered depends on the bound of `CoseSign1.AttestationFitsIff`.
- For the same reason a token of more than 65533 components is handed out with a wrong count
  (`TokenLimit.EvidenceExactly`); the device uses two.
- The byte count of read_va_range decides full cover only for segments that do not overlap:
  `CoreHash.OverlapHidesGap`, `CoreHash.CountIsSizeIff`, `CoreHash.CoveredRangeIsReadIff`.
- The shifts of ieee754.c:445-452 and 615-617 are computed before the guard on the exponent; the model
  shifts under the guard.

## Model

| member | source | states |
|---|---|---|
| `CborForest.EncodesForest` | attester/pta_remote_attestation/remote_attestation/qcbor/qcbor_encode.c:593-622 | for every forest of items within depth, count and offset limits that the buffer holds, its calls in pre-order leave exactly the bytes of the forest, at top level again and with the items counted, although every definite head is inserted only at its close; for forests that are WellFormedAll these bytes are the RFC 8949 section 3 serialization, by CborDecoder.DecodesForest |
| `CborForest.AllRun` | attester/pta_remote_attestation/remote_attestation/qcbor/qcbor_encode.c:862-1038 | the same from inside any open level of any healthy state: bytes appended, items counted, nothing else changed |
| `CborForest.GroupRun` | attester/pta_remote_attestation/remote_attestation/qcbor/qcbor_encode.c:862-921 | opening, filling and closing an array, map or wrap appends its serialization and counts one item in the level around |
| `CborForest.InsertHeadRun` | attester/pta_remote_attestation/remote_attestation/qcbor/qcbor_encode.c:593-622 | a close turns the bytes of the level into head and bytes, slid right by the head, and pops the level |
| `CborForest.LeafRun` | attester/pta_remote_attestation/remote_attestation/qcbor/qcbor_encode.c:648-754 | each adding call appends its head and content and counts one item, a tag none |
| `CborForest.CancelRun` | attester/pta_remote_attestation/remote_attestation/qcbor/qcbor_encode.c:964-988 | cancelling a wrap right after opening it undoes the opening, its count included |
| `CborDecoder.DecodesForest` | attester/pta_remote_attestation/remote_attestation/qcbor/qcbor_encode.c:704-721 | a decoder written from RFC 8949 section 3 and appendix C reads every well-formed forest back from its bytes and consumes all of them |
| `CborDecoder.EncodeThenDecode` | attester/pta_remote_attestation/remote_attestation/qcbor/qcbor_encode.c:1044-1063 | what Finish hands out for the calls of a forest is decoded to that forest |
| `CborDecoder.SerializationInjective` | attester/pta_remote_attestation/remote_attestation/qcbor/qcbor_encode.c:1044-1063 | forests of different meaning have different serializations |
| `EncoderLegal.AcceptsExactlyLegal` | attester/pta_remote_attestation/remote_attestation/qcbor/qcbor_encode.c:1044-1063 | for every call sequence and capacity: Finish succeeds, no Open having come after a violation nor overflowed a count itself, if and only if the calls are those of a forest within all limits that fits; and then the output is the bytes of the forest, its serialization if it is WellFormedAll |
| `EncoderLegal.AcceptedIff` | attester/pta_remote_attestation/remote_attestation/qcbor/qcbor_encode.c:862-1063 | for every call sequence, unclean ones included: Finish succeeds if and only if the last Open that forgets something goes through in the state before it, the buffer is not full, and the calls behind it put forests that fit into the levels open there and close these one after the other, type by type |
| `EncoderLegal.ForgottenErrorExample` | attester/pta_remote_attestation/remote_attestation/qcbor/qcbor_encode.c:890 | a concrete illegal sequence, a close too many and then an empty array, that Finish accepts |
| `EncoderEndings.AcceptedEnds` | attester/pta_remote_attestation/remote_attestation/qcbor/qcbor_encode.c:549-579 | from any healthy state, with any levels open: the calls of a clean run that is accepted are forests that fit, separated by closes that match the open levels, innermost first |
| `EncoderEndings.EndingRuns` | attester/pta_remote_attestation/remote_attestation/qcbor/qcbor_encode.c:549-579 | and all such calls are accepted |
| `OpenBytesGuard.InsideOpenBytesExample` | attester/pta_remote_attestation/remote_attestation/qcbor/qcbor_encode.c:994-1023 | an item added between OpenBytes and CloseBytes: accepted and counted as one item, and read back as two, neither of them what the caller wrote |
| `OpenBytesGuard.GuardedReadsBack` | attester/pta_remote_attestation/remote_attestation/qcbor/qcbor_encode.c:994-1023 | the calls of a forest add and open nothing while a byte string is open if and only if the forest has nothing inside one; then, for texts, maps and tags as CBOR has them, what Finish hands out is decoded to the forest |
| `OpenBytesGuard.OpenedBytesReadBackIff` | attester/pta_remote_attestation/remote_attestation/qcbor/qcbor_encode.c:1014-1023 | a byte string with other calls inside is read back as what the caller wrote if and only if those calls leave no bytes |
| `EncoderSafety.StepSafe` | attester/pta_remote_attestation/remote_attestation/qcbor/UsefulBuf.c:211-276 | every call in every safe state, legal or not: starts of open levels do not decrease nor pass the end of the data, the data stay within the capacity, they grow, and only the innermost level is touched |
| `EncoderSafety.RunSafe` | attester/pta_remote_attestation/remote_attestation/qcbor/UsefulBuf.c:211-276 | over every run the data stay within the capacity, and once the error flag is set it stays set and nothing is written any more |
| `EncoderSafety.PrefixFixedWhileOpen` | attester/pta_remote_attestation/remote_attestation/qcbor/qcbor_encode.c:96-176 | all bytes in front of an open level, its start and its type stay as they are until that level closes |
| `EncoderSafety.ErrorForgottenIff` | attester/pta_remote_attestation/remote_attestation/qcbor/qcbor_encode.c:862-892 | an error, or the overflow of the count around, is forgotten exactly by an Open that itself goes through |
| `SizeCalculation.SizeCalculationDecides` | attester/pta_remote_attestation/remote_attestation/qcbor/qcbor_encode.c:1069-1080 | with n the length after the same calls in a large buffer or in a null one, which holds none of the bytes: a buffer of c bytes ends with the same verdict and length if c >= n, and is reported too small otherwise; with the same bytes written the output is the same too |
| `BstrWrapping.WrapIsAddBytesIff` | attester/pta_remote_attestation/remote_attestation/qcbor/qcbor_encode.c:927-958 | a wrap around the calls of a forest equals AddBytes of what an encoder of its own makes of those calls if and only if the wrap fits: depth, offset and the count around are the only differences |
| `EncoderStuck.UnfitStuck` | attester/pta_remote_attestation/remote_attestation/qcbor/qcbor_encode.c:862-892 | a forest that fits elsewhere but opens too deep or too far here ends in an error that no further call clears |
| `BstrWrapping.WrappedSliceIsInside` | attester/pta_remote_attestation/remote_attestation/qcbor/qcbor_encode.c:927-958 | the slice handed back is the wrapped bytes, with or without their head |
| `BstrWrapping.CancelRestoresIff` | attester/pta_remote_attestation/remote_attestation/qcbor/qcbor_encode.c:964-988 | an open and immediately cancelled wrap restores the state exactly when the wrap could be opened and counted |
| `BstrWrapping.WriteInPlaceIsAddBytesIff` | attester/pta_remote_attestation/remote_attestation/qcbor/qcbor_encode.c:994-1023 | OpenBytes, writing and CloseBytes equal AddBytes exactly where a byte string may be opened: depth, count and offset left, none open |
| `PlainForest.FitsExactly` | attester/pta_remote_attestation/remote_attestation/qcbor/qcbor_encode.c:1044-1063 | a forest within the limits is written into every buffer of its size and refused as too small for any smaller one |
| `CborHead.EncodeHead` | attester/pta_remote_attestation/remote_attestation/qcbor/qcbor_encode.c:431-500 | the backward double loop, for every argument, major type and minimum length up to 8, stays in the buffer, touches nothing else and leaves the RFC 8949 head; a buffer under 10 bytes is left alone |
| `CborHead.PutArgument` | attester/pta_remote_attestation/remote_attestation/qcbor/qcbor_encode.c:460-475 | the outer loop ends after the least number of turns that holds the argument and the minimum length |
| `CborHead.PutOctets` | attester/pta_remote_attestation/remote_attestation/qcbor/qcbor_encode.c:466-470 | the inner loop puts the low octets of the argument, most significant first, in front of what is there |
| `CborHead.HeadRoundTrip` | attester/pta_remote_attestation/remote_attestation/qcbor/qcbor_encode.c:431-500 | a reader of RFC 8949 heads gets back major type, argument and width and is left with what follows |
| `CborHead.HeadIsShortest` | attester/pta_remote_attestation/remote_attestation/qcbor/qcbor_encode.c:431-500 | with no minimum length, no other definite head of the same major type and argument is shorter (RFC 8949 section 4.1) |
| `BigEndian.FromToBytes` | attester/pta_remote_attestation/remote_attestation/qcbor/UsefulBuf.h:1990-2069 | octets in network order stand for the number they were made from |
| `QcborEncode.TrackNesting.constructor` | attester/pta_remote_attestation/remote_attestation/qcbor/qcbor_encode.c:80-88 | a stack with the implied top-level array only |
| `QcborEncode.TrackNesting.Increase` | attester/pta_remote_attestation/remote_attestation/qcbor/qcbor_encode.c:90-108 | pushes a level, refuses a sixteenth and then changes nothing |
| `QcborEncode.TrackNesting.Decrease` | attester/pta_remote_attestation/remote_attestation/qcbor/qcbor_encode.c:106-112 | pops a level if there is one to pop |
| `QcborEncode.TrackNesting.Increment` | attester/pta_remote_attestation/remote_attestation/qcbor/qcbor_encode.c:114-126 | counts an item, at most 65533 of them |
| `QcborEncode.TrackNesting.Decrement` | attester/pta_remote_attestation/remote_attestation/qcbor/qcbor_encode.c:128-135 | one item less, in 16 bits |
| `QcborEncode.EncodeContext.constructor` | attester/pta_remote_attestation/remote_attestation/qcbor/qcbor_encode.c:258-263 | an encoder with nothing written, on the given storage |
| `QcborEncode.EncodeContext.AppendCBORHead` | attester/pta_remote_attestation/remote_attestation/qcbor/qcbor_encode.c:514-533 | appends the head it was asked for, or sets the error flag of the buffer |
| `QcborEncode.EncodeContext.CheckDecreaseNesting` | attester/pta_remote_attestation/remote_attestation/qcbor/qcbor_encode.c:549-579 | lets a close pass only without earlier error, with a level open and of the same type, and says which of these failed |
| `QcborEncode.EncodeContext.InsertCBORHead` | attester/pta_remote_attestation/remote_attestation/qcbor/qcbor_encode.c:593-622 | in place: the head at the start of the level, the level popped |
| `QcborEncode.EncodeContext.IncrementMapOrArrayCount` | attester/pta_remote_attestation/remote_attestation/qcbor/qcbor_encode.c:633-645 | counts an item unless there is an error |
| `QcborEncode.EncodeContext.AddUInt64` | attester/pta_remote_attestation/remote_attestation/qcbor/qcbor_encode.c:648-653 | the class keeps its invariant and does what EncoderSpec says, of which the theorems above hold |
| `QcborEncode.EncodeContext.AddInt64` | attester/pta_remote_attestation/remote_attestation/qcbor/qcbor_encode.c:659-680 | likewise for all of int64, the least value included |
| `QcborEncode.EncodeContext.AddBuffer` | attester/pta_remote_attestation/remote_attestation/qcbor/qcbor_encode.c:704-721 | likewise for strings, raw bytes and a length alone, for which there need be no bytes |
| `QcborEncode.EncodeContext.AddTag` | attester/pta_remote_attestation/remote_attestation/qcbor/qcbor_encode.c:727-731 | likewise; a tag is no item |
| `QcborEncode.EncodeContext.AddType7` | attester/pta_remote_attestation/remote_attestation/qcbor/qcbor_encode.c:739-754 | likewise; 24 to 31 are refused at every minimum length |
| `QcborEncode.EncodeContext.OpenMapOrArray` | attester/pta_remote_attestation/remote_attestation/qcbor/qcbor_encode.c:862-892 | likewise; the count around goes up, the error is overwritten |
| `QcborEncode.EncodeContext.OpenMapOrArrayIndefiniteLength` | attester/pta_remote_attestation/remote_attestation/qcbor/qcbor_encode.c:902-911 | likewise, with the marker written at once |
| `QcborEncode.EncodeContext.CloseMapOrArray` | attester/pta_remote_attestation/remote_attestation/qcbor/qcbor_encode.c:918-921 | likewise, with pairs counted in a map |
| `QcborEncode.EncodeContext.CloseMapOrArrayIndefiniteLength` | attester/pta_remote_attestation/remote_attestation/qcbor/qcbor_encode.c:1029-1038 | likewise, with the break written |
| `QcborEncode.EncodeContext.CloseBstrWrap2` | attester/pta_remote_attestation/remote_attestation/qcbor/qcbor_encode.c:927-958 | likewise, and the returned slice points at the wrapped bytes |
| `QcborEncode.EncodeContext.CancelBstrWrap` | attester/pta_remote_attestation/remote_attestation/qcbor/qcbor_encode.c:965-988 | likewise; refused when anything was written since |
| `QcborEncode.EncodeContext.OpenBytes` | attester/pta_remote_attestation/remote_attestation/qcbor/qcbor_encode.c:995-1007 | likewise; the place handed out is the storage directly behind all that has been written, with the room that is left; the null buffer in error |
| `QcborEncode.EncodeContext.CloseBytes` | attester/pta_remote_attestation/remote_attestation/qcbor/qcbor_encode.c:1014-1023 | likewise, with what the caller has put at that place |
| `EncoderRun.WriteInPlace` | attester/pta_remote_attestation/remote_attestation/qcbor/qcbor_encode.c:994-1023 | bytes that the caller writes through the place which OpenBytes handed out, taken in by CloseBytes: the same state and the same output as AddBytes of them, if and only if a byte string may be opened there |
| `QcborEncode.EncodeContext.GetErrorState` | attester/pta_remote_attestation/remote_attestation/qcbor/qcbor_encode.h:3972-3987 | a full buffer is reported as too small, whatever else went wrong |
| `QcborEncode.EncodeContext.Finish` | attester/pta_remote_attestation/remote_attestation/qcbor/qcbor_encode.c:1044-1063 | success exactly without error and with all levels closed, and then the encoded bytes; otherwise the result of the caller is left as it was |
| `QcborEncode.EncodeContext.FinishGetSize` | attester/pta_remote_attestation/remote_attestation/qcbor/qcbor_encode.c:1069-1080 | the same verdict, and the length |
| `EncoderRun.EncodeCalls` | attester/pta_remote_attestation/remote_attestation/qcbor/qcbor_encode.c:258-1063 | any list of calls, made on the class and finished: the verdict and the bytes are those of the run that the theorems speak of, so that legal lists succeed and clean successes are legal |
| `EncoderRun.MeasureCalls` | attester/pta_remote_attestation/remote_attestation/qcbor/qcbor_encode.c:1069-1080 | any list of calls, made on the class over a null buffer of SIZE_MAX bytes: with n the size reported, the same calls succeed in exactly the buffers of at least n bytes and are reported too small in all others; when the size calculation fails they succeed in none |
| `EncoderRun.ReadsBackForest` | attester/pta_remote_attestation/remote_attestation/qcbor/qcbor_encode.c:1044-1063 | the buffer that the class filled is decoded to the forest |
| `QcborWrappers.AddInt64ToMapN` | attester/pta_remote_attestation/remote_attestation/qcbor/qcbor_encode.h:2494-2501 | key and value, two calls |
| `QcborWrappers.AddTextToMapN` | attester/pta_remote_attestation/remote_attestation/qcbor/qcbor_encode.h:2541-2547 | key and text, two calls |
| `QcborWrappers.AddBytesToMapN` | attester/pta_remote_attestation/remote_attestation/qcbor/qcbor_encode.h:2749-2756 | key and bytes, two calls |
| `QcborWrappers.OpenArrayInMapN` | attester/pta_remote_attestation/remote_attestation/qcbor/qcbor_encode.h:3815-3820 | key and opening, two calls |
| `QcborWrappers.Open` | attester/pta_remote_attestation/remote_attestation/qcbor/qcbor_encode.h:3802-3833 | one opening call |
| `QcborWrappers.Close` | attester/pta_remote_attestation/remote_attestation/qcbor/qcbor_encode.h:3822-3853 | one closing call |
| `UsefulBuf.UsefulOutBuf.constructor` | attester/pta_remote_attestation/remote_attestation/qcbor/UsefulBuf.c:150-154 | an empty buffer over the given storage |
| `UsefulBuf.UsefulOutBuf.InsertUsefulBuf` | attester/pta_remote_attestation/remote_attestation/qcbor/UsefulBuf.c:211-276 | with room and the position within the data: the new bytes at the position, the data behind them moved right, all other storage untouched; otherwise only the error flag, which stays |
| `UsefulBuf.SlideThenCopy` | attester/pta_remote_attestation/remote_attestation/qcbor/UsefulBuf.c:250-276 | sliding right and then copying over the gap is an insertion |
| `UsefulBuf.UsefulOutBuf.AppendUsefulBuf` | attester/pta_remote_attestation/remote_attestation/qcbor/UsefulBuf.h:2090-2095 | an insertion at the end; with a null pointer and a length, of what is in the storage there |
| `UsefulBuf.UsefulOutBuf.Advance` | attester/pta_remote_attestation/remote_attestation/qcbor/UsefulBuf.c:310-365 | takes in bytes that are already in place, if there is room for them |
| `UsefulBuf.UsefulOutBuf.OutUBuf` | attester/pta_remote_attestation/remote_attestation/qcbor/UsefulBuf.c:368-381 | the valid bytes, or the null buffer in error |
| `UsefulBuf.UsefulOutBuf.AppendUint16` | attester/pta_remote_attestation/remote_attestation/qcbor/UsefulBuf.h:1946-1975 | two octets in network order |
| `UsefulBuf.UsefulOutBuf.AppendUint32` | attester/pta_remote_attestation/remote_attestation/qcbor/UsefulBuf.h:1978-2009 | four octets in network order |
| `UsefulBuf.UsefulOutBuf.AppendUint64` | attester/pta_remote_attestation/remote_attestation/qcbor/UsefulBuf.h:2012-2069 | eight octets in network order |
| `UsefulBufSearch.Compare` | attester/pta_remote_attestation/remote_attestation/qcbor/UsefulBuf.c:88-99 | zero exactly for equal contents, otherwise by length and then by the first difference |
| `UsefulBufSearch.FindBytes` | attester/pta_remote_attestation/remote_attestation/qcbor/UsefulBuf.c:129-142 | the least position at which the bytes occur, SIZE_MAX exactly when there is none |
| `UsefulBufSearch.CopyOffset` | attester/pta_remote_attestation/remote_attestation/qcbor/UsefulBuf.c:71-82 | copies exactly when offset and length fit the destination, and changes no other byte of it; source and destination may be apart in one array |
| `UsefulInput.UsefulInputBuf.GetBytes` | attester/pta_remote_attestation/remote_attestation/qcbor/UsefulBuf.c:407-425 | the next bytes if there are enough and there was no error; otherwise the error, which stays, and no movement; null for a null buffer |
| `UsefulInput.UsefulInputBuf.Seek` | attester/pta_remote_attestation/remote_attestation/qcbor/UsefulBuf.h:2222-2229 | moves within the buffer, an error outside of it |
| `UsefulInput.UsefulInputBuf.GetUint16` | attester/pta_remote_attestation/remote_attestation/qcbor/UsefulBuf.h:2296-2331 | the number that two octets stand for, zero in error |
| `UsefulInput.UsefulInputBuf.GetUint32` | attester/pta_remote_attestation/remote_attestation/qcbor/UsefulBuf.h:2334-2364 | the number that four octets stand for, zero in error |
| `UsefulInput.UsefulInputBuf.GetUint64` | attester/pta_remote_attestation/remote_attestation/qcbor/UsefulBuf.h:2367-2430 | the number that eight octets stand for, zero in error |
| `UsefulInput.WriteAndReadBack` | attester/pta_remote_attestation/remote_attestation/qcbor/UsefulBuf.h:2118-2143 | any sequence of 8-, 16-, 32- and 64-bit appends is read back number by number by the matching gets, without error |
| `PsaClaims.TokenCallsAre` | attester/pta_remote_attestation/remote_attestation/cbor.c:24-72 | the calls made for a token are those of its item tree |
| `PsaClaims.TokenMeans` | attester/pta_remote_attestation/remote_attestation/cbor.c:24-72 | the tree means the map of claims, keys and types as the token draft has them |
| `PsaClaims.TokenInjective` | attester/pta_remote_attestation/remote_attestation/cbor.c:6-81 | equal tokens carry equal claims |
| `PsaLengths.TokenIsLong` | attester/pta_remote_attestation/remote_attestation/cbor.c:6-81 | the length of a token in closed form, for any claims |
| `PsaLengths.FilledInIsAttested` | attester/pta_remote_attestation/remote_attestation/remote_attestation.c:257-316 | the claims that the command fills in, with any client id, lifecycle of the fuses, hashes, version of up to 31 bytes and nonce, are those that the bounds are about |
| `PsaLengths.AttestedTokenLength` | attester/pta_remote_attestation/remote_attestation/remote_attestation.c:257-316 | for the claims of a device, with any of the three lifecycles of ocotp.c:60-104 and a nonce of any length: 274 + client id + version + nonce, with their heads; at most 378 for nonces of up to 64 bytes, which the code does not check (remote_attestation.c:160) |
| `TokenLimit.TokenRun` | attester/pta_remote_attestation/remote_attestation/cbor.c:43-63 | what is written for any number of components, in a large enough buffer, as long as no array or map starts behind the offset limit: an array head that stops at 65533 before all the components |
| `TokenLimit.TokenIsRightIff` | attester/pta_remote_attestation/remote_attestation/cbor.c:24-80 | for any claims and any buffer: encoding succeeds with the token if and only if the buffer holds it, no array or map starts behind the offset limit, and there are at most 65533 components |
| `TokenLimit.EvidenceExactly` | attester/pta_remote_attestation/remote_attestation/cbor.c:24-80 | for any claims and any buffer: exactly those bytes if the buffer holds them, refused as too small if not, an error if an array or map starts behind the offset limit |
| `Attestation.EncodeEvidence` | attester/pta_remote_attestation/remote_attestation/cbor.c:6-81 | driving the encoder in place: the token of the claims in the buffer when it fits, the null buffer when not or when it starts an array or map behind the offset limit; for more components than can be counted, the same bytes with the count that the run leaves |
| `CoseSign1.ProtectedIsMap` | attester/pta_remote_attestation/remote_attestation/cbor.c:168-184 | the protected parameters are the three bytes of the map {1: -7} |
| `Attestation.EncodeProtectedParameter` | attester/pta_remote_attestation/remote_attestation/cbor.c:168-184 | delivers them, or the null buffer |
| `CoseSign1.TbsIsSigStructure` | attester/pta_remote_attestation/remote_attestation/cbor.c:200-218 | what is to be signed is the Sig_structure of RFC 8152 section 4.4, byte for byte |
| `CoseSign1.TbsInjective` | attester/pta_remote_attestation/remote_attestation/cbor.c:200-218 | no two triples of protected parameters, additional data and payload give the same bytes to sign |
| `Attestation.CreateTbs` | attester/pta_remote_attestation/remote_attestation/cbor.c:200-218 | delivers the Sig_structure, or the null buffer when it does not fit |
| `CoseSign1.CoseMeans` | attester/pta_remote_attestation/remote_attestation/cbor.c:87-166 | the message is tag 18 on the array of protected parameters, empty map, payload and signature |
| `CoseSign1.VerifierRebuildsSigned` | attester/pta_remote_attestation/remote_attestation/cbor.c:127-155 | a verifier that takes the message apart and rebuilds the Sig_structure gets the bytes that were to be signed, and the signature |
| `Attestation.GenerateCose` | attester/pta_remote_attestation/remote_attestation/cbor.c:87-166 | a message whose signature is the signer's on the Sig_structure of its own parts, exactly when that structure fits 512 bytes, the signer succeeds and the message fits; otherwise the null buffer |
| `Attestation.SignatureCoversRebuilt` | attester/pta_remote_attestation/remote_attestation/cbor.c:127-155 | of every message handed out: the signature found in it is the signer's on what a verifier rebuilds |
| `CoseSign1.CoseLength` | attester/pta_remote_attestation/remote_attestation/cbor.c:87-166 | the length of the message in closed form |
| `CoseSign1.MessageFitsIff` | attester/pta_remote_attestation/remote_attestation/cbor.c:87-166 | with a signature of 64 bytes, evidence, Sig_structure and message all fit their 512 bytes if and only if there are at most 436 bytes of evidence |
| `CoseSign1.AttestationFitsIff` | attester/pta_remote_attestation/remote_attestation/remote_attestation.c:283-345 | for the claims of a device: if and only if client id, version and nonce take at most 162 bytes with their heads; nonces of up to 64 bytes take at most 104 together with them |
| `Attestation.CborEvidence` | attester/pta_remote_attestation/remote_attestation/remote_attestation.c:283-345 | the command from the claims on: a message if and only if client id, version and nonce take at most 162 bytes and signing succeeds; from it a verifier rebuilds the Sig_structure of the token of the claims, with its signature |
| `Ieee754.NarrowKeeps` | attester/pta_remote_attestation/remote_attestation/qcbor/ieee754.c:335-473 | what is narrowed keeps value, sign and NaN payload |
| `Ieee754.NarrowComplete` | attester/pta_remote_attestation/remote_attestation/qcbor/ieee754.c:517-637 | and whatever has a pattern of the narrower format is narrowed to it |
| `Ieee754.DoubleToSmallerKeeps` | attester/pta_remote_attestation/remote_attestation/qcbor/ieee754.c:643-657 | for every 64-bit pattern the result has exactly the value, or sign and NaN payload, of the input |
| `Ieee754.DoubleToSmallerIsSmallest` | attester/pta_remote_attestation/remote_attestation/qcbor/ieee754.c:643-657 | no pattern of the same meaning is smaller (RFC 8949 section 4.1), none of its size is another |
| `Ieee754.HalfToDouble` | attester/pta_remote_attestation/remote_attestation/qcbor/ieee754.c:226-301 | widening keeps the meaning for every 16-bit pattern, and gives back the original 64 bits of every double that was narrowed to half |
| `Ieee754.NormalizeSubnormal` | attester/pta_remote_attestation/remote_attestation/qcbor/ieee754.c:245-268 | the do-while loop ends with the normal form of the subnormal |
| `Ieee754.DatumInjective` | attester/pta_remote_attestation/remote_attestation/qcbor/ieee754.c:643-657 | in each format a meaning has one pattern |
| `Ieee754.TakeApartAssembled` | attester/pta_remote_attestation/remote_attestation/qcbor/ieee754.c:318-330 | the fields of an assembled pattern are those it was assembled from |
| `Ieee754.PatternsAreWords` | attester/pta_remote_attestation/remote_attestation/qcbor/ieee754.c:64-130 | the patterns of the three formats are all words of 16, 32 and 64 bits |
| `ByteOrder.CmpOrder` | attester/pta_remote_attestation/remote_attestation/hash.c:29-41 | cmp_regions compares contents by a total order |
| `RegionHash.SortedUnique` | attester/pta_remote_attestation/remote_attestation/hash.c:85-89 | a multiset of contents has one sorted arrangement, so that it does not matter which one qsort returns |
| `RegionHash.HashRegions` | attester/pta_remote_attestation/remote_attestation/hash.c:43-110 | the digest is the hash of the contents of the valid regions in sorted order, whatever the order of the list and the addresses, if all calls of the crypto library succeed and there is memory; otherwise the first error. Which regions are valid is settled by ArotRefval.OtherIsNotValid and ArotRefval.SameContents |
| `RegionHash.CollectValid` | attester/pta_remote_attestation/remote_attestation/hash.c:79-81 | the second walk over the list gathers exactly the valid regions |
| `RegionHash.OneDigest` | attester/pta_remote_attestation/remote_attestation/hash.c:23-28 | a multiset of contents has one digest |
| `Hashing.FirstErrorIs` | attester/pta_remote_attestation/remote_attestation/hash.c:50-108 | the code passed on is that of the first call that fails, success exactly when none does |
| `ArotRefval.RoundUpIsLeast` | provisoning/compute-arot-refval.py:46-47 | rounding up gives the least multiple of a page that is no smaller |
| `ArotRefval.MappedByte` | provisoning/compute-arot-refval.py:67-68 | a segment is the bytes of the file, then zeroes up to the page-rounded size in memory |
| `ArotRefval.RegionsAreWholePages` | provisoning/compute-arot-refval.py:58-70 | all contents that are hashed are whole pages, when no segment is longer in the file than in memory |
| `ArotRefval.OrdersAgree` | provisoning/compute-arot-refval.py:84-85 | the sort key of the script orders contents as cmp_regions does |
| `ArotRefval.ReferenceValue` | provisoning/compute-arot-refval.py:50-91 | the script's digest is that of its regions' contents in that order |
| `ArotRefval.MeasurementsAgree` | provisoning/compute-arot-refval.py:84-91 | two digests of the same contents, mapped in any order at any addresses, agree |
| `ArotRefval.OtherIsNotValid` | attester/pta_remote_attestation/remote_attestation/hash.c:15-21 | the regions that are not measured are exactly those that are ephemeral, permanent, of ldelf, or not read-only |
| `ArotRefval.SameContents` | provisoning/compute-arot-refval.py:58-70 | for a header page and the LOAD segments of a file, each mapped with the flags that its permissions give and whatever other regions there are, in any order: the contents measured on the device are, with multiplicity, those that the script computes |
| `ArotRefval.MeasureBoth` | provisoning/compute-arot-refval.py:50-91 | end to end: for an application that runs from its file, in any order of its regions and whatever else is mapped, the digest of the device is that of the script |
| `CoreHash.ReadVaRange` | provisoning/compute-prot-refval.py:45-67 | success exactly when the counted bytes are as many as asked for, and then each byte is that of the last segment that has its address; empty for an empty range |
| `CoreHash.CountDecidesCover` | provisoning/compute-prot-refval.py:56-66 | for segments that do not overlap in the range, counting decides full cover |
| `CoreHash.CountIsSizeIff` | provisoning/compute-prot-refval.py:62 | the count is the number of covered addresses if and only if none of them is covered twice, and larger otherwise |
| `CoreHash.CoveredRangeIsReadIff` | provisoning/compute-prot-refval.py:63-66 | a fully covered range is read if and only if nothing in it is there twice |
| `CoreHash.OverlapHidesGap` | provisoning/compute-prot-refval.py:62-66 | concrete overlapping segments for which the count hides a gap |
| `CoreHash.ReadSpan` | provisoning/compute-prot-refval.py:45-67 | over the memory that the segments load: the memory image of the range, or the error, by full cover |
| `CoreHash.ReferenceValue` | provisoning/compute-prot-refval.py:70-107 | the script's digest is the hash of the spans of memory in order; an error exactly for an absent symbol of a wanted span or a span that is not all there |
| `CoreHash.SixSymbolsSuffice` | provisoning/compute-prot-refval.py:85-101 | a core without pager needs six symbols and no other, and then the spans are the two of text around its data and that of read-only data |
| `CoreHash.GetHashTeeMemory` | attester/pta_remote_attestation/remote_attestation/hash.c:144-198 | the hash of the spans in order, or the code of the first call of the crypto library that fails; a short buffer is refused |
| `CoreHash.SpansAgree` | provisoning/compute-prot-refval.py:85-101 | when the symbols bound the sections of the running core, none is missing, and script and device take the same spans in the same order |
| `CoreHash.MeasureBoth` | provisoning/compute-prot-refval.py:70-107 | end to end, for the core whose segments load the memory that the device hashes: the script has a digest if and only if every span is there in full, and then it is the digest of the device |
| `Pcr10.TemplateReadsBack` | attester/ima-quote/pcr10_recompute3.py:46-56 | a reader of length-prefixed fields gets file hash and path back from a template |
| `Pcr10.TemplateInjective` | attester/ima-quote/pcr10_recompute3.py:46-56 | no two pairs of file hash and path have the same template |
| `Pcr10.AllZeroIff` | attester/ima-quote/pcr10_recompute3.py:43-44 | 64 zero digits are the file hashes, without white space, that decode to 32 zero octets |
| `Pcr10.RecomputePcr10` | attester/ima-quote/pcr10_recompute3.py:93-106 | what a TPM holds whose PCR of 32 zeroes has been extended with the template hashes one after the other, and the number of entries; or an error |
| `Pcr10.SimulatePcr10UntilMatch` | attester/ima-quote/pcr10_recompute3.py:109-127 | the least number of entries, one at least, whose replay is the expected value, if there is one; an error if that value or the hash of an entry is no hex |
| `Pcr10.ExpectedReadsBack` | attester/ima-quote/pcr10_recompute3.py:115 | the value compared with is the one that was given in hex, in either case, with or without 0x in front |
| `Pcr10.SpacedHexReadsOn` | attester/ima-quote/pcr10_recompute3.py:50 | white space, the six characters of Pcr10.SpacesAre, is skipped between the octets |
| `Pcr10.DecodedWasGiven` | attester/ima-quote/pcr10_recompute3.py:50 | whatever is decoded, written in hex again, is the given text but for white space and case |
| `Pcr10.RemovedWithin` | attester/ima-quote/pcr10_recompute3.py:115 | every 0x is removed from the expected value, and by Pcr10.NothingToRemove nothing else |
| `Pcr10.SamePcrSameHashes` | attester/ima-quote/pcr10_recompute3.py:98-104 | lists of any lengths with the same PCR have the same template hashes, or a collision or a preimage of the zero PCR is shown |
| `Pcr10.SamePcrSameEntries` | attester/ima-quote/pcr10_recompute3.py:35-56 | and then the same decoded file hashes, and the same paths except where that hash is 32 zero octets; or an entry that hashes to all ones is shown |
| `Pcr10.AlikeSameHashes` | attester/ima-quote/pcr10_recompute3.py:35-56 | the converse: lists that agree so far have the same template hashes, hence the same PCR |
| `Pcr10.TemplateHashIs` | attester/ima-quote/pcr10_recompute3.py:35-56 | the template hash of any entry, by its decoded file hash: for 32 zero octets 32 times 0xff, whatever the path; otherwise the hash of a template from which file hash and path are read back, or an error for no hex or lengths beyond 32 bits |
| `UsdhcBus.ProperAt` | attester/optee-patches/imx_usdhc.c:844-876 | what is proper of a bus trace, at each of its events: a frame transfer directly follows its block count, on the RPMB partition of an identified card, in the right direction; a SWITCH changes the access bits only |
| `UsdhcBus.TransferAfterIdentification` | attester/optee-patches/imx_usdhc.c:827-965 | on every proper bus, for every transfer of frames: between the start, every failed data phase or work of another master and that transfer, CMD0, CMD1 until ready in sector mode, CMD2, CMD3, CMD7 with the address given by CMD3, CMD16 with 512 and CMD8 were accepted in this order; the card was seen released; the transfer goes to the RPMB partition directly behind its announcement, with the block count, the reliable write bit exactly for a write, and the bits of MIXCTRL that it needs |
| `UsdhcBus.SwitchKeepsBoot` | attester/optee-patches/imx_usdhc.c:781-792 | on every proper bus the argument of every SWITCH writes the octet PART_CONF, and nothing but its three access bits differs from what the card has there |
| `UsdhcBus.IdentityIsLast` | attester/optee-patches/imx_usdhc.c:686-725 | what counts as told by the card is the response to the last accepted CMD2 and the data of the last CMD8 |
| `UsdhcBus.IdentifiedBetween` | attester/optee-patches/imx_usdhc.c:640-756 | as much of that identification as counts lies behind the start and any trouble |
| `ImxUsdhc.Usdhc.SendCmd` | attester/optee-patches/imx_usdhc.c:428-549 | a command without data is issued exactly when the lines are free, at once or after one reset; the answer to it decides outcome and result; it keeps what is cached, and all of PART_CONF but the partition. An error is returned only where hardware or card gave reason, which holds of every method of the driver |
| `ImxUsdhc.Usdhc.SendDataCmd` | attester/optee-patches/imx_usdhc.c:428-549 | a command with data likewise, over 32 blocks not issued; the answers to command and data decide; frames go out and come in unchanged; a failed data phase, and only it, resets the cached state |
| `ImxUsdhc.Usdhc.SetClock` | attester/optee-patches/imx_usdhc.c:551-590 | the divider read back is the one remembered, the data time-out is the longest, the other bits of SYSCTL stay |
| `ImxUsdhc.Usdhc.ResetController` | attester/optee-patches/imx_usdhc.c:592-638 | success exactly when reset and initialization clocks end in time; resets controller and FIFO and sends the clocks, in this order; leaves one data line, divider 64 and no mode, which is not judged foreign |
| `ImxUsdhc.Usdhc.CardIdentify` | attester/optee-patches/imx_usdhc.c:640-756 | success only after CMD0, CMD1 until ready, CMD2, CMD3, CMD7 and CMD16, at the full clock by then, and the CID is kept in the layout that is configured, from the response to that CMD2 |
| `ImxUsdhc.CidOctets` | attester/optee-patches/imx_usdhc.c:700-725 | the response registers from the highest on are CID[127:8] in network order |
| `ImxUsdhc.Usdhc.DevInfo` | attester/optee-patches/imx_usdhc.c:967-983 | success only with a card that holds as identified; the CID is put together from the response registers, size and reliable write count are octets 168 and 222 of its last EXT_CSD |
| `ImxUsdhc.Usdhc.ControllerStateForeign` | attester/optee-patches/imx_usdhc.c:885-895 | the three register checks |
| `ImxUsdhc.ForeignIff` | attester/optee-patches/imx_usdhc.c:885-895 | which bits of the three registers these are |
| `ImxUsdhc.Usdhc.Init` | attester/optee-patches/imx_usdhc.c:897-965 | nothing is issued when no other master has been at work; otherwise success only with a new identification; failure leaves nothing cached, and pads that fail nothing issued |
| `ImxUsdhc.Usdhc.SwitchPartition` | attester/optee-patches/imx_usdhc.c:768-807 | to any partition: success exactly when the card accepted a SWITCH to it, without its error bit, or the cache says so already, and then nothing is sent; what the card boots from stays, which holds of every method of the driver |
| `ImxUsdhc.Usdhc.WaitCardReady` | attester/optee-patches/imx_usdhc.c:810-824 | success exactly when the card is seen released |
| `ImxUsdhc.Usdhc.RpmbXfer` | attester/optee-patches/imx_usdhc.c:827-877 | keeps every trace proper; success moves exactly the asked frames, failure none; up to 32 blocks it fails only where hardware or card gave reason |
| `ImxUsdhc.Usdhc.RpmbRead` | attester/optee-patches/imx_usdhc.c:985-988 | the buffer holds the frames received, octet by octet what the card sent, or is unchanged |
| `ImxUsdhc.Usdhc.RpmbWrite` | attester/optee-patches/imx_usdhc.c:990-1002 | the frames of the buffer were sent and the card has been seen released, or an error |
| `ImxUsdhc.Usdhc.TroubleIsRemembered` | attester/optee-patches/imx_usdhc.c:541-543 | after a failed data phase or another master the driver holds itself uninitialized or finds the registers foreign |
| `RpmbNative.RpmbNativeExchange` | attester/optee-patches/rpmb-native-backend.py:87-124 | a successful exchange is exactly: the request, for a key program or data write the request for its result, the response; a failed one is cut off before the response; without a whole frame on either side nothing is sent. Over any number of exchanges a device that has an answer only to what it was asked for is never read in vain |
| `RpmbNative.ExchangeObeys` | attester/optee-patches/rpmb-native-backend.py:80-124 | in whatever state the device is, no part of what is sent reads it in vain, and in the end it has the result of the write, or an answer |
| `RpmbNative.UnaskedResult` | attester/optee-patches/rpmb-native-backend.py:107-111 | behind a frame whose octets 510 and 511 ask for a write there is nothing to read until a frame of zeroes with 5 at 511 has been sent; a read before that is, by RpmbNative.InVainStays, never made good |
| `Base64.Base64Encode` | attester/pta_remote_attestation/remote_attestation/base64.c:16-58 | with room exactly the encoding and a terminator are written and nothing else; without, nothing, and the size needed is reported |
| `Base64.DecodeEncode` | attester/pta_remote_attestation/remote_attestation/base64.c:16-58 | a decoder of RFC 4648 section 4 recovers every input; by Base64.ValueIsOfSymbol it knows the same alphabet and no more |

## Left out

- CBOR decoding: the repository shows only the headers of the decoder. The decoder here is written from RFC 8949, refuses indefinite-length strings, which the encoder never writes, and reads floats as bit patterns.
- AddEncoded and AddBytesLenOnly are calls of the encoder and keep its invariants, but no meaning is claimed for what the caller adds with them.
- AddDouble, AddFloat, AddExponentAndMantissa and the wrappers with text labels: the first two compose ieee754.c with AddType7, which refuses bit patterns from 24 to 31; the others add nothing but more calls of the same kind.
- PsaLengths.AttestedTokenLength: the profile, implementation and instance identifiers enter with their lengths only, as the device sets them.
- Attestation.GenerateCose: failing allocations are left out.
- Attestation.CborEvidence: reading fuses, measuring and deriving identifiers come before it, and the copy of the message to the caller behind it.
- QcborEncode.EncodeContext.AddBuffer: a null pointer with a length adds what lies in the output buffer already; for an encoder over real storage that is covered only where just the length is added.
- UsefulInput.UsefulInputBuf.Seek: UsefulInputBuf_SetBufferLength, which can move the end behind the buffer, is left out.
- RegionHash.HashRegions: the check of the calling session and the switch of user access around the hashing.
- ArotRefval.MeasureBoth: that ldelf maps each LOAD segment as a region of its own, zero-padded to pages, with the flags of its permissions is a premise; ldelf is not part of this model, nor are the parsing of ELF files and the warning about relocations.
- CoreHash.ReferenceValue: load_symbols is left out, the symbols are given; segment data are as long as their file size.
- Pcr10.RecomputePcr10: entries are given; the splitting of lines into tokens, the encoding of paths and the reading of the TPM are left out.
- ImxUsdhc.Usdhc.SendCmd: polling loops are one answer of the environment each; caches, delays, pads, clock roots, tracing, the burst lengths and the tuning registers are left out.
- ImxUsdhc.Usdhc.SwitchPartition: leaving the RPMB partition, which nothing does; a SWITCH whose response is lost would then leave the cached partition wrong.
- ImxUsdhc.Usdhc.OtherMasterWorks: another master that leaves all checked registers as the driver set them, or acts during a call, is not covered; the driver could not tell.
- RpmbNative.RpmbNativeExchange: what the frames say beyond their message type, their authentication, and the allocation of the two buffers.
- The text patching of rpmb-native-backend.py, key generation and packing, OCOTP fuses, the client id, the network, the HTTP proxy and the sessions: easy or outside of the code.
