# Transaction codecs

A model of the byte formats that omni-transaction writes and reads for Bitcoin, EVM chains and NEAR, with
proofs about them. `dafny verify dfyconfig.toml` checks everything.

**Bitcoin.** `VarInts`, `Limits`, `TxParts` and `TxVectors` are the consensus codec: minimal variable-length
integers, chunked reads of untrusted length, the 4,000,000-byte `take` of the decoders, inputs, outputs and
vectors of them. `Witnesses` is the packed witness: one byte vector with the items first and an index area
behind them, built in two different ways and read through an iterator. `Transactions` has the legacy and the
BIP-144 layout and shows that the bytes fix the transaction. `BitcoinTransactions` is the transaction object;
`WitnessRuns` follows it over runs of `build_with_witness` calls; `Sighash` is the message of BIP-143 and what
it commits to, and `SighashRuns` what becomes of it over such runs. `Der` covers signatures and scriptSigs.

**EVM.** `Rlp` is recursive length prefix encoding from Appendix B of the Ethereum Yellow Paper; `Evm` writes
EIP-1559 payloads through a stream that holds a buffer and the positions of the lists still open.

**NEAR.** `Borsh`, `NearKeys`, `Near`, `NearCanonical` and `NearSigning` cover transactions, the recursive
action tree and signing; `NearLayout` compares all of it with the declarations.

## How it is put together

Every format has an encoder on values (`...Bytes`, or `Put...` which also takes the bytes that follow) and a
pure reader (`Read...`) that returns a value and the bytes left, or an error. `Parsing.Lawful` ties the two
together: reading back any encoding, whatever follows it, gives the value and what follows (`RoundTrips`), and
whatever is accepted is an encoding (`Canonical`). The code that changes buffers, advances readers or assigns
fields is modelled by methods with the same loops and branches; their contracts say that they append exactly
the encoder's bytes, or return exactly what the pure reader returns (`Streams.Agrees`), so the laws hold of
them too.

Laws that tie an encoder to its own reader do not notice the same mistake in both, so every layout is also
stated apart from them, in literal bytes and offsets: `VarInts.VarIntLayout`, `TxParts.TxInLayout`,
`Transactions.TxLayout`, `Sighash.Bip143Message`, `Der.DerLayout`, the decoder `Evm.AsTransaction` and
`NearLayout`. The limit of the decoders is written out as 4,000,000 where a law promises it.

Conventions: `usize` is 64 bits. A reader is a byte string, a position and an end; `take` moves the end.
Offsets of the index area are written little-endian, which stands for the native order. The double SHA-256 is
a parameter, any function to 32 bytes. For NEAR, which texts are UTF-8 and which are account names is a
parameter. `decode` of a whole Bitcoin transaction, of RLP items and of EIP-1559 payloads does not exist in
the library: the readers `Transactions.ReadTx` (over limitless readers of the parts, or over the library's
own decoders of them), `Rlp.ReadItem` and `Evm.ReadPayload` are references written from BIP-144, the Yellow
Paper and EIP-1559.

Where the code and what its documentation promises differ, the code is modelled: the segwit message is the one
of BIP-143 only while no witness is attached (`Sighash.Bip143Exactly`), so attaching the first witness moves
the message of every input (`SighashRuns.FirstWitnessMovesMessage`); the integers of a signature are valid DER
only without a superfluous leading zero byte (`Der.DerExactly`, `Der.ZeroSignatureIsNotDer`); and a
`NonDelegateAction` can hold a delegate action once it has been deserialized
(`NearSigning.NestedDelegateIsRead`, `NearSigning.TryFromExactly`).

## Model

| member | source | states |
|---|---|---|
| Bytes.LEDigit | src/bitcoin/encoding/macros.rs:5-7 | Byte i of a little-endian integer is the digit that counts 256 to the power i |
| VarInts.VarIntLawful | src/bitcoin/encoding/utils.rs:28-109 | Reading inverts writing whatever follows, every accepted string is the encoding of its value, and the length written is what `size` says: a bijection between 64-bit integers and minimal encodings, prefix-free |
| VarInts.VarIntLayout | src/bitcoin/encoding/utils.rs:37-61 | Every byte of the four forms: the value itself up to 0xFC, otherwise 0xFD, 0xFE or 0xFF and the digits from the lowest |
| VarInts.EncodeVarInt | src/bitcoin/encoding/utils.rs:37-61 | Appends the minimal encoding, leaves earlier bytes alone and returns the number of bytes appended |
| VarInts.DecodeVarInt | src/bitcoin/encoding/utils.rs:78-109 | Returns the value and stops behind it, or fails with end of input or a non-minimal encoding, exactly as the pure reader does |
| VarInts.VarBytesLawful | src/bitcoin/encoding/encode.rs:31-35 | Length-prefixed byte strings read back with any tail, and only their encodings are accepted |
| VarInts.EncodeWithSize | src/bitcoin/encoding/utils.rs:112-119 | Appends length and data and returns how many bytes that is |
| Streams.Reader.ReadWord | src/bitcoin/encoding/macros.rs:12-20 | Fixed-width little-endian integers: value and bytes left, or end of input |
| Streams.Reader.Take | src/bitcoin/encoding/decode.rs:18-20 | Until the old end is given back, exactly the first `limit` bytes can be read |
| Limits.ReadBytesFromFiniteReader | src/bitcoin/encoding/decode.rs:44-62 | The next `len` bytes or an error, whatever the non-zero chunk size; the buffer never holds more than the bytes read plus one chunk |
| Limits.DecodeByteVec | src/bitcoin/encoding/decode.rs:28-38 | A length and that many bytes, read in chunks of 128 KiB |
| Limits.ScriptLawful | src/bitcoin/encoding/decode.rs:11-21 | Through `take`, a script of an input is read back exactly when length prefix and script fit 4,000,000 bytes |
| Limits.DecodeScript | src/bitcoin/types/script_buf.rs:55-59 | Reads a script through the limit and puts the outer limit back |
| Parsing.LimitedAccepts | src/bitcoin/encoding/decode.rs:18-20 | A value whose encoding is within the limit is read through it, and what follows is left in place |
| Parsing.LimitedCanonical | src/bitcoin/encoding/decode.rs:18-20 | Whatever is read through the limit is an encoding no longer than it |
| Witnesses.FromSlice | src/bitcoin/types/tx_in/witness.rs:91-117 | Filling the pre-sized buffer in place gives the packed form of the list: items with lengths, then their offsets; asked only that every start offset fits 32 bits and the buffer is no longer than an allocation can be |
| Witnesses.ContentSize | src/bitcoin/types/tx_in/witness.rs:94-97 | The size of the item area, within `usize` together with the index area |
| Witnesses.Encode | src/bitcoin/types/tx_in/witness.rs:120-130 | Appends the count and the item area, not the index area, and returns the number of bytes |
| Witnesses.WitnessBytesOfPack | src/bitcoin/types/tx_in/witness.rs:120-130 | On the wire a packed witness is the counted list of its items |
| Witnesses.PackInjective | src/bitcoin/types/tx_in/witness.rs:21-44 | The derived equality of the packed form is equality of the lists it stands for |
| Witnesses.EncodeCursor | src/bitcoin/types/tx_in/witness.rs:236-242 | Overwrites four bytes of the index area and nothing else |
| Witnesses.ResizeIfNeeded | src/bitcoin/types/tx_in/witness.rs:244-252 | Afterwards the buffer is longer than required, and its length, at least 1, has been doubled as often as that takes and no further: at most max(1, twice the required length); zero-filled, with the old bytes kept |
| Witnesses.IndexAt | src/bitcoin/types/tx_in/witness.rs:29-31 | Slot i of the index area holds the total size of the items before item i |
| Witnesses.ItemAt | src/bitcoin/types/tx_in/witness.rs:142-150 | Following slot i leads to item i: the cursor, its length prefix and the slice are in range |
| Witnesses.Iter.constructor | src/bitcoin/types/tx_in/witness.rs:67-73 | A new iterator over a packed list has handed out nothing |
| Witnesses.Iter.Next | src/bitcoin/types/tx_in/witness.rs:142-150 | Hands out the next item of the list and moves on by one; after the last it gives none and stays |
| Witnesses.Iter.SizeHint | src/bitcoin/types/tx_in/witness.rs:152-156 | The exact number of items still to come, at every step |
| Witnesses.ToVec | src/bitcoin/types/tx_in/witness.rs:81-88 | Iterating to the end gives exactly the list |
| Witnesses.DecodeItem | src/bitcoin/types/tx_in/witness.rs:190-213 | One turn of the decoding loop: grows the buffer within the bound, records offset, length and data, and keeps what is already there |
| Witnesses.ReserveItem | src/bitcoin/types/tx_in/witness.rs:203-210 | Writes the offset, grows the buffer within the bound and writes the length prefix, keeping all that is there |
| Witnesses.Decode | src/bitcoin/types/tx_in/witness.rs:170-224 | Indices at the head, growing, truncating and rotating give the same structure as the one-pass builder, on every input; no slice is out of range, and the buffer stays within 2 * (4,000,000 + 4n) bytes for n declared items even when decoding fails |
| Witnesses.ReadWitnessExact | src/bitcoin/types/tx_in/witness.rs:171-216 | Decoding succeeds exactly when count and lengths are minimal, the data is present and items with prefixes take at most 4,000,000 bytes, and then returns the listed items |
| Witnesses.WitnessRoundTrip | src/bitcoin/types/tx_in/witness.rs:91-130 | Decoding the encoding of any packed list, followed by anything, gives the identical structure and leaves the rest; lists over the limit are refused |
| Witnesses.WitnessCanonical | src/bitcoin/types/tx_in/witness.rs:170-224 | Whatever is accepted is re-encoded to exactly the bytes consumed, and the result has the index invariant |
| Witnesses.AcceptedIsIndexable | src/bitcoin/types/tx_in/witness.rs:203-205 | For accepted items no offset overflows the 32-bit conversion of the index area |
| TxParts.OutPointLawful | src/bitcoin/types/tx_in/outpoint.rs:61-76 | Out points read back with any tail, and nothing else is accepted |
| TxParts.OutPointLayout | src/bitcoin/types/tx_in/outpoint.rs:61-68 | 36 bytes: the hash from its last byte to its first, then the output index |
| TxParts.EncodeOutPoint | src/bitcoin/types/tx_in/outpoint.rs:61-68 | Appends those bytes and returns 36 |
| TxParts.DecodeOutPoint | src/bitcoin/types/tx_in/outpoint.rs:70-76 | Follows the pure reader in value, position and error |
| TxParts.TxInLawful | src/bitcoin/types/tx_in/tx_in.rs:51-79 | Inputs without witness read back, over a limited or unlimited script reader, and only their encodings are accepted |
| TxParts.TxInLayout | src/bitcoin/types/tx_in/tx_in.rs:51-65 | Where each field of an input is: reversed hash, output index, script with its length, sequence |
| TxParts.EncodeTxIn | src/bitcoin/types/tx_in/tx_in.rs:51-65 | Appends out point, script and sequence, never the witness, and returns the number of bytes |
| TxParts.DecodeTxIn | src/bitcoin/types/tx_in/tx_in.rs:67-79 | Follows the pure reader; the limit applies to the script alone; the witness comes back empty |
| TxParts.TxOutLawful | src/bitcoin/types/tx_out/tx_out.rs:44-62 | Outputs read back with any tail, and only their encodings are accepted |
| TxParts.TxOutLayout | src/bitcoin/types/tx_out/tx_out.rs:44-51 | Eight bytes of value, then the script with its length |
| TxParts.EncodeTxOut | src/bitcoin/types/tx_out/tx_out.rs:44-51 | Appends value and script and returns the number of bytes |
| TxParts.DecodeTxOut | src/bitcoin/types/tx_out/tx_out.rs:53-62 | Follows the pure reader, with no limit of its own |
| TxVectors.EncodeTxIns | src/bitcoin/bitcoin_transaction.rs:270-279 | Appends count and inputs; the accumulated length is the number of bytes appended |
| TxVectors.EncodeTxOuts | src/bitcoin/bitcoin_transaction.rs:301-310 | Appends count and outputs; the accumulated length is the number of bytes appended |
| TxVectors.DecodeTxInsFinite | src/bitcoin/bitcoin_transaction.rs:281-299 | The pushing loop reads the declared number of inputs, or fails as the first bad one does |
| TxVectors.DecodeTxOutsFinite | src/bitcoin/bitcoin_transaction.rs:312-330 | The pushing loop reads the declared number of outputs, or fails as the first bad one does |
| TxVectors.DecodeTxIns | src/bitcoin/encoding/decode.rs:18-20 | The same behind the limit on the whole vector |
| TxVectors.DecodeTxOuts | src/bitcoin/encoding/decode.rs:18-20 | The same behind the limit on the whole vector |
| TxVectors.TxInsRoundTrip | src/bitcoin/bitcoin_transaction.rs:270-299 | Decoding an encoded vector of inputs gives it back with empty witnesses if the encoding is at most 4,000,000 bytes, and fails if it is longer |
| TxVectors.TxInsCanonical | src/bitcoin/bitcoin_transaction.rs:281-299 | Every accepted string re-encodes to the bytes consumed |
| TxVectors.TxOutsRoundTrip | src/bitcoin/bitcoin_transaction.rs:301-330 | Decoding an encoded vector of outputs gives it back if the encoding is at most 4,000,000 bytes, and fails if it is longer |
| TxVectors.TxOutsCanonical | src/bitcoin/bitcoin_transaction.rs:312-330 | Every accepted string re-encodes to the bytes consumed |
| Transactions.VersionLawful | src/bitcoin/types/version.rs:39-62 | Only versions 1 and 2 are read, each from its own four bytes |
| Transactions.TxLayout | src/bitcoin/bitcoin_transaction.rs:332-354 | Every part of the serialization in its place, constants as bytes: 01 or 02 and three zeros, 00 01 when some witness is attached or there are no inputs, counted inputs, counted outputs, the witnesses after 00 01, the lock time in the last four bytes |
| Transactions.MarkerAndFlag | src/bitcoin/constants.rs:1-5 | With a witness attached, bytes 4 and 5 are 00 01 |
| Transactions.MarkerByte | src/bitcoin/bitcoin_transaction.rs:255-261 | The byte after the version is zero exactly when the BIP-144 layout is used, so the two layouts never overlap |
| Transactions.TxRoundTrip | src/bitcoin/bitcoin_transaction.rs:332-354 | A reader of BIP-144 without limits gives back every transaction with well-formed witnesses, and leaves what follows |
| Transactions.LibraryDecodersExactly | src/bitcoin/bitcoin_transaction.rs:270-354 | The library's own decoders of inputs, outputs and witnesses, run one after the other on a serialization, give back the transaction exactly when inputs, outputs and each witness are within 4,000,000 bytes, and fail otherwise |
| Transactions.WitnessSectionExact | src/bitcoin/bitcoin_transaction.rs:347-349 | The witness section decodes to the attached lists, in input order, exactly when each is within the limit |
| Transactions.UniquelyDecodable | src/bitcoin/bitcoin_transaction.rs:332-354 | Equal serializations mean equal version, inputs, witnesses, outputs and lock time; none is a prefix of another |
| BitcoinTransactions.BitcoinTransaction.Encode | src/bitcoin/bitcoin_transaction.rs:332-354 | Appends the layout the inputs call for, leaves earlier bytes alone and returns the number of bytes appended |
| BitcoinTransactions.BitcoinTransaction.EncodeWitnesses | src/bitcoin/bitcoin_transaction.rs:347-349 | Appends one witness per input, in input order |
| BitcoinTransactions.BitcoinTransaction.AnyWitness | src/bitcoin/bitcoin_transaction.rs:256-258 | Whether some input has a non-empty witness |
| BitcoinTransactions.BitcoinTransaction.Serialize | src/bitcoin/bitcoin_transaction.rs:104-110 | The serialization of the current state |
| BitcoinTransactions.BitcoinTransaction.BuildForSigningLegacy | src/bitcoin/bitcoin_transaction.rs:113-122 | The serialization followed by 01 00 00 00, which is SIGHASH_ALL |
| BitcoinTransactions.BitcoinTransaction.BuildWithScriptSig | src/bitcoin/bitcoin_transaction.rs:125-144 | Sets one script, changes nothing else, and returns the new serialization |
| BitcoinTransactions.BitcoinTransaction.BuildWithWitness | src/bitcoin/bitcoin_transaction.rs:169-191 | Moves the transaction one call along a run of witness calls and returns the new serialization, with 00 01 behind the version when items were given |
| BitcoinTransactions.BitcoinTransaction.EncodeForSighashForSegwit | src/bitcoin/bitcoin_transaction.rs:193-252 | Appends the segwit message up to the hash type, hashing the out points, sequences and outputs of all inputs and outputs in order |
| BitcoinTransactions.BitcoinTransaction.BuildForSigningSegwit | src/bitcoin/bitcoin_transaction.rs:147-166 | For every in-range input: the message that has each of the ten fields of BIP-143 at its offset, with 00 01 after the version when a witness is attached |
| WitnessRuns.RunSnoc | src/bitcoin/bitcoin_transaction.rs:169-191 | One more call extends a run by the witness it attaches |
| WitnessRuns.RunsCompose | src/bitcoin/bitcoin_transaction.rs:169-191 | A run and then another is one run |
| BitcoinTransactions.BitcoinTransaction.RunBuildWithWitness | src/bitcoin/bitcoin_transaction.rs:169-191 | Calling `build_with_witness` over any run leaves the state after that run and returns its serialization; when there were inputs and no witness before, the legacy serialization of then can be cut out of it |
| WitnessRuns.AttachedAt | src/bitcoin/bitcoin_transaction.rs:176-178 | After any run an input differs only in its witness, which is that of the last call for it |
| WitnessRuns.OrderDoesNotMatter | src/bitcoin/bitcoin_transaction.rs:169-191 | Calls for distinct inputs give the same transaction and bytes in any order |
| WitnessRuns.StripOfSegwit | src/bitcoin/bitcoin_transaction.rs:341-352 | Taking marker, flag and witness section out of a BIP-144 serialization leaves version, inputs, outputs and lock time |
| WitnessRuns.StripAfterRun | src/bitcoin/bitcoin_transaction.rs:169-191 | After any run on a witness-free transaction with inputs, the latest bytes without marker, flag and witnesses are the original legacy serialization |
| WitnessRuns.RunHasWitness | src/bitcoin/bitcoin_transaction.rs:169-191 | A run whose last call attaches at least one item ends in the BIP-144 layout |
| Sighash.PreimageIsMessage | src/bitcoin/bitcoin_transaction.rs:193-252 | Each of the ten fields of BIP-143 is at its offset: version, hash of out points, hash of sequences, out point, script code, value, sequence, hash of outputs, lock time, 01 00 00 00 |
| Sighash.Bip143Exactly | src/bitcoin/bitcoin_transaction.rs:203-209 | The message meets those offsets exactly when no input carries a witness; otherwise bytes 4 and 5 are 00 01, and without them it does |
| Sighash.PrevoutsLayout | src/bitcoin/bitcoin_transaction.rs:212-217 | What is hashed of the out points: 36 bytes an input, the hash reversed and the output index |
| Sighash.SequencesLayout | src/bitcoin/bitcoin_transaction.rs:220-225 | What is hashed of the sequences: four bytes an input |
| Sighash.OutputsLayout | src/bitcoin/bitcoin_transaction.rs:243-248 | What is hashed of the outputs: one behind the other with no count, value and then script with its length |
| Sighash.PreimageInjective | src/bitcoin/bitcoin_transaction.rs:193-252 | All ten fields can be read back from the message |
| Sighash.PrevoutsFixOutPoints | src/bitcoin/bitcoin_transaction.rs:212-217 | The hashed out-point buffer fixes number and order of the out points |
| Sighash.SequencesFixNumbers | src/bitcoin/bitcoin_transaction.rs:220-225 | The hashed sequence buffer fixes number and order of the sequences |
| Sighash.OutputsPartFixesOutputs | src/bitcoin/bitcoin_transaction.rs:243-248 | The hashed output buffer, which has no count, fixes the list of outputs |
| Sighash.Commitment | src/bitcoin/bitcoin_transaction.rs:147-166 | Equal messages mean equal version, out points, sequences, outputs, lock time, signed out point and sequence, script code and value, or one of three named pairs of buffers is a collision of the double hash; if only one transaction carries witnesses, one out-point hash is 00 01 followed by the first 30 bytes of the other |
| Sighash.PreimageCommitment | src/bitcoin/bitcoin_transaction.rs:193-252 | The same for the ten-field layout itself |
| Sighash.LegacyCommitment | src/bitcoin/bitcoin_transaction.rs:113-122 | Equal legacy messages are messages of the same transaction |
| SighashRuns.RunKeepsPreimage | src/bitcoin/bitcoin_transaction.rs:193-252 | No run of witness calls moves any of the ten fields of BIP-143, for any input |
| SighashRuns.RunKeepsMessageExactly | src/bitcoin/bitcoin_transaction.rs:203-209 | The library's message stays the same over a run exactly when the run does not change whether some witness is attached |
| SighashRuns.FirstWitnessMovesMessage | src/bitcoin/bitcoin_transaction.rs:169-209 | The failing calls: attaching items to any input of a witness-free transaction puts 00 01 into the message of every input, which then differs from the one of BIP-143 |
| Der.EncodeAsn1Integer | src/bitcoin/utils.rs:22-34 | Tag, length and the bytes, with a zero in front when the top bit is set |
| Der.EncodeSignatureAsDer | src/bitcoin/utils.rs:2-20 | The sequence of the two halves of the signature |
| Der.SerializeEcdsaSignature | src/bitcoin/utils.rs:49-57 | The same followed by the hash type |
| Der.BuildScriptSig | src/bitcoin/utils.rs:37-46 | Length byte and signature, length byte and key |
| Der.DerRoundTrip | src/bitcoin/utils.rs:2-34 | For every 64-byte signature the output is 70 to 72 bytes and reads back, by X.690, to the two halves as non-negative integers |
| Der.DerLayout | src/bitcoin/utils.rs:2-34 | Every byte of the output: 30 and a length of 68 to 70, and for each half 02 20 or 02 21 00 before its 32 bytes |
| Der.DerExactly | src/bitcoin/utils.rs:22-34 | Each integer meets the minimality rule of section 8.3.2 of X.690 exactly when its half starts with a non-zero byte or its second byte is at least 0x80 |
| Der.ZeroSignatureIsNotDer | src/bitcoin/utils.rs:22-34 | The failing input: 64 zero bytes are encoded with integers that are not minimal |
| Der.ScriptSigExactly | src/bitcoin/utils.rs:37-46 | The script reads back as the two direct pushes exactly when both lengths are 1 to 75 |
| Der.SignatureAndKeyReadBack | src/bitcoin/utils.rs:37-57 | In particular for any signature with hash type and a 33- or 65-byte key |
| Bytes.BEDigit | src/evm/evm_transaction.rs:87-93 | Byte i from the end of an integer in an RLP string is the digit that counts 256 to the power i |
| Rlp.ItemRoundTrip | src/evm/evm_transaction.rs:83-114 | RLP items nested to any depth and length are read back, with any tail, by a decoder that takes only the shortest form |
| Rlp.ItemCanonical | src/evm/evm_transaction.rs:83-114 | Whatever that decoder accepts is the encoding of the item it returns, so every item has one encoding |
| Evm.EncodeFields | src/evm/evm_transaction.rs:83-114 | Appends the nine fields in the order of EIP-1559 and leaves no list open |
| Evm.EncodeAccessList | src/evm/evm_transaction.rs:97-113 | Nested lists of addresses and storage keys, of any length |
| Evm.RlpStream.FinalizeUnboundedList | src/evm/evm_transaction.rs:108-112 | What was written since the list was opened becomes its payload, behind a header |
| Evm.BuildForSigning | src/evm/evm_transaction.rs:51-63 | 0x02 and the RLP list of the nine fields, from which a decoder of EIP-1559 gets the transaction back |
| Evm.BuildWithSignature | src/evm/evm_transaction.rs:65-81 | 0x02 and the RLP list of the nine fields and v, r, s, from which it gets transaction and signature back |
| Evm.FieldsRead | src/evm/evm_transaction.rs:83-114 | Each of the nine positions holds the field EIP-1559 puts there, absent `to` and access list included |
| Evm.PayloadRoundTrip | src/evm/evm_transaction.rs:51-63 | A decoder of EIP-1559 finds every component of the transaction in the payload and leaves what follows |
| Evm.PayloadCanonical | src/evm/evm_transaction.rs:51-63 | It takes no other bytes for that transaction |
| Evm.SignedRoundTrip | src/evm/evm_transaction.rs:65-81 | The same of the signed transaction: the nine components and v, r and s |
| Evm.SignedCanonical | src/evm/evm_transaction.rs:65-81 | It takes no other bytes for that transaction and signature |
| Evm.FieldsInjective | src/evm/evm_transaction.rs:83-95 | The field list fixes the transaction: absent and present `to`, zero and non-zero integers, every access list |
| Evm.SigningUniquelyDecodable | src/evm/evm_transaction.rs:51-63 | Equal payloads are payloads of the same transaction, and none is a prefix of another |
| Evm.UnsignSigned | src/evm/evm_transaction.rs:65-81 | Dropping the last three items and rebuilding the list header gives the signed payload, and the three items are v, r and s as given |
| NearKeys.SerializePublicKey | src/near/types/public_key.rs:26-40 | Tag byte and key bytes |
| NearKeys.DeserializePublicKey | src/near/types/public_key.rs:42-72 | Follows the pure reader in value, position and failure |
| NearKeys.PublicKeyRoundTrip | src/near/types/public_key.rs:26-72 | A serialized key reads back with any tail |
| NearKeys.PublicKeyCanonical | src/near/types/public_key.rs:42-72 | Only serialized keys are accepted |
| NearKeys.SignatureRoundTrip | src/near/types/signature.rs:9-26 | A serialized signature reads back with any tail |
| Near.ActionRoundTrip | src/near/types/actions.rs:21-37 | Every action tree, delegate actions at any depth included, reads back with any tail |
| Near.DelegateRoundTrip | src/near/types/actions.rs:342-366 | The same for a signed delegate action |
| Near.TransactionRoundTrip | src/near/near_transaction.rs:30-45 | The same for a whole transaction |
| NearCanonical.ActionCanonical | src/near/types/actions.rs:21-37 | Whatever is read as an action is its serialization |
| NearCanonical.TransactionCanonical | src/near/near_transaction.rs:28-45 | Whatever is read as a transaction is its serialization |
| NearCanonical.TransactionTail | src/near/near_transaction.rs:55-57 | What follows a transaction does not change its bytes |
| NearLayout.ActionAsDeclared | src/near/types/actions.rs:21-37 | For every action tree the bytes are the position of the variant in the declaration, 0 to 10, and then its fields in order |
| NearLayout.DelegateAsDeclared | src/near/types/actions.rs:342-366 | The same of a signed delegate action: the six fields in order and the signature |
| NearLayout.TransactionAsDeclared | src/near/near_transaction.rs:30-65 | The bytes to sign are the six declared fields, a 32-bit length before each list; signed, the signature's tag and bytes follow |
| NearSigning.SigningLawful | src/near/near_transaction.rs:54-57 | Signing bytes read back whatever follows them, and only signing bytes do |
| NearSigning.SignedIsSigningThenSignature | src/near/near_transaction.rs:59-65 | A signed transaction is the bytes that were signed followed by the signature |
| NearSigning.SignedSplitsOneWay | src/near/near_transaction.rs:59-65 | It comes from one transaction and one signature only, even when more bytes follow |
| NearSigning.NestedDelegateIsRead | src/near/types/actions.rs:306-328 | The derived decoder reads a delegate action inside a delegate action, which `try_from` refuses |
| NearSigning.TryFromExactly | src/near/types/actions.rs:318-328 | What is decoded as inner actions could have been made by `try_from` exactly when none of them starts with the delegate tag |

## Left out

- Streams.Reader.ReadExact: after a failed read the position is somewhere between the old one and the end; the decoders return at once and no caller reads on.
- Streams.ByteVec.WriteAll: the writer is a vector, which never fails; writers that can fail, and exhausted memory, are not modelled.
- Near.TransactionRoundTrip: Borsh failures are told apart only by where they happen, not by their messages; stack depth on deeply nested delegate actions is not modelled.
- NearKeys.DeserializePublicKey: stands for both `deserialize` and `deserialize_reader`, whose bodies are the same over a slice and over a reader.
- Evm.RlpStream.Append: follows the Yellow Paper; the placeholder bytes of the `rlp` crate's unbounded lists are not part of this model.
- BitcoinTransactions.BitcoinTransaction.BuildForSigningLegacy: encodes the transaction as it stands, as the code does; that a caller blanks the other scripts first, as the legacy signature hash needs, is not modelled.
- Derived Borsh and serde forms of Bitcoin types, which do not keep the index invariant of a witness.
- JSON, hex, base58 and base64 text forms: thin calls into other libraries.
- The three transaction builders: optional fields and `expect`.
- SHA-256 and elliptic curves: foreign code.
- `Amount` arithmetic, lock-time and sequence constants, `p2wpkh_script_code`: only easy members.
- Vector capacities: no effect on results.
- The MPC signer interface and the integration tests: network and I/O.
