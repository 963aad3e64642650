# A verified model of the div0 Ethereum virtual machine

div0 is an Ethereum virtual machine written in C. This project models the parts of it on which the rest
depends and proves, in Dafny, what they promise:

* **The Merkle-Patricia trie** (`Trie*`, `Mpt`, `NodeEncoder`, `NodeBytes`, `HexPrefix`, `StateRoot`). A pure trie with
  its map semantics, normal form and uniqueness; the same algorithms on heap nodes that are overwritten in
  place, with the references and cached hashes they keep; the encoding of nodes, byte by byte; and the theorem
  that root hashes commit to contents, up to the state root over accounts.
* **256-bit arithmetic on limbs** (`Limbs`, `KnuthD`, `LongDivision`, `Reciprocal`, `UInt256`,
  `ModularArith`, `Exponent`, `SignedArith`). Knuth's algorithm D, division by reciprocal with wrapping
  intermediates, the wide product and its reduction, ADDMOD, MULMOD, EXP, SDIV and SMOD.
* **RLP** (`Rlp`, `ByteBuffer`, `RlpEncoder`, `RlpDecoder`, `KeptItems`, `WordBytes`, `TxFields`,
  `Transactions`, `TxRoundTrips`, `TxWire`, `Accounts`). Encoders and the list builder on fixed buffers, the decoder as
  a cursor, canonicity as an equivalence, exactly when accounts and transactions of all five types survive
  encoding and decoding, and where in the bytes each of their fields stands.
* **The interpreter** (`Machine`, `MachineSteps`, `MachineRuns`, `OperandStack`, `CallFrames`, `FrameStacks`,
  `Interpreter`, `Jumpdest`, `OpcodeLaws`, `CallLaws`). A transition system over the stack of call frames with their memory, call data
  and return data; what a step does, by its opcode and the words on the stack; what every opcode keeps; what
  follows for whole runs and whole calls; and the interpreter as the source
  has it, with growing operand arrays, a pool of frames and a stack of pointers to the callers, all updated
  in place, refining the transition system.
* **Block execution** (`World`, `Metering`, `Funding`, `Settlement`, `LedgerLaws`, `Executor`, `Sums`). Storage gas and
  refunds, validation, pricing with the base fee burned, what a transaction does to every account, and
  conservation of ether over whole blocks.

Algorithms that the source runs in place are methods on arrays and objects, each proved against a function
on values; the theorems are about those functions. `dafny verify dfyconfig.toml` checks everything.

## Reading guide

The main results, each for all inputs or all runs:

| result | where |
|---|---|
| root hashes commit to maps, and state roots to accounts | `TrieInvisible.RunsShareRoot`, `TrieCommitment.RunsCommit`, `StateRoot.StateRootCommits` |
| a node refers to a child by its bytes or by their hash; root hashes spelled out | `NodeBytes.BranchBytes`, `NodeBytes.EmbeddedLeaves`, `NodeBytes.EmbeddedBranch` |
| operation order never matters; normal form is unique | `TrieRuns.OrderIrrelevant`, `TrieNormal.NormalFormUnique` |
| stored references and cached hashes are always current | `TrieHeap.InsertRecursive`, `TrieHeap.DeleteRecursive`, `Mpt.MerklePatriciaTrie.ComputeRootHash` |
| division, reciprocal, MULMOD and ADDMOD are exact | `UInt256.DivMod256`, `Reciprocal.Compute`, `ModularArith.MulMod`, `ModularArith.AddMod` |
| RLP is accepted exactly in canonical form | `RlpDecoder.BytesCanonical`, `RlpDecoder.IntCanonical`, `Accounts.DecodeAccount`, `Transactions.DecodeLegacy` |
| a transaction survives encoding exactly when it fits | `TxRoundTrips.RoundTrip` |
| every field of a transaction has its place in the bytes | `TxWire.Encode`, `TxWire.Decode` |
| every run halts; gas is conserved | `MachineRuns.StepLowers`, `MachineRuns.GasBounded`, `Interpreter.Evm.Execute` |
| a call runs the right code at the right address for the right price | `CallLaws.CallOpensIff`, `CallLaws.CallOpens`, `CallLaws.CallGas`, `CallLaws.CallMoves` |
| and gives its caller back unchanged but for the answer | `CallLaws.CallAnswered` |
| storage changes only at the address of a frame that ran | `OpcodeLaws.StorageOfRun` |
| operand stacks stay in their arrays, but for one opcode | `MachineRuns.Sound`, `MachineRuns.StepOverrunsIff` |
| static calls change nothing | `MachineRuns.StaticIsolation` |
| every fetched opcode is an instruction | `MachineRuns.Sound`, `Jumpdest.ComputeBitmap` |
| refunds are what storage is worth, and within the gas used | `World.StoreKeepsRefunds`, `Metering.NeverOverpaidIff`, `Funding.RefundWithinGas` |
| a transaction runs from and leaves the right ledger, account by account | `LedgerLaws.TxLaw`, `LedgerLaws.PlainTransfer` |
| a transaction runs once | `LedgerLaws.ReplayRejected`, `LedgerLaws.ReplayIff` |
| a block burns base fee times gas used, nothing else | `Settlement.BlockConserves`, `Executor.BlockExecutor.Run` |

Six promises turned out to hold only under a condition, which is then stated and proved to be exact:

* Root hashes do not show an empty value stored in a branch (`TrieCommitment.EmptyValueIsInvisible`). Two
  maps share a root exactly when they agree but for empty values at keys where both fork
  (`TrieInvisible.RunsShareRoot`).
* Transaction encoders reserve a fixed number of bytes in a buffer that never grows and drop what does not
  fit. A transaction survives exactly when the builder's peak fits (`TxRoundTrips.RoundTrip`).
* The storage refund is not a function of a slot's original and present value, because putting a slot back
  earns a refund each time (`Metering.PotentialIffNoRestore`).
* A slot is warmed before its access is charged and warming is never undone, so an access that runs out of gas
  in a nested frame leaves the slot warm and unpaid. Refunds of a slot stay within what was paid for it
  exactly when its first access was charged or it was empty (`Metering.NeverOverpaidIff`); over whole runs
  each such slot is worth at most 1900 more (`Funding.RefundWithinGas`).
* DUP checks the depth limit and not the capacity of the operand array. It writes past the end exactly when
  the array is full (`MachineSteps.OverrunsIffDup`); a run that comes to this has no further meaning in the
  source and ends in the model as an overrun, which the results about outcomes except.
* A nonce stops at 2^64 - 2 instead of rising further. A transaction that has run is turned away by its nonce
  the second time exactly when that nonce is a smaller one (`LedgerLaws.ReplayIff`); with the last nonce two
  copies both run (`LedgerLaws.LastNonceReplays`).

## Assumptions

* The hash function is a parameter. Freedom from collisions is assumed only on the finite set of byte
  strings hashed in the statement at hand.
* Allocation succeeds. Sizes are below 2^64.
* Opcodes that only compute on stack, memory or environment are a parameter of the machine: an arbitrary
  function of the step, the opcode, the frame with its memory and call data, the return buffer and the world,
  different for every transaction, that may refuse, or charge, pop, push, rewrite memory and warm addresses.
* Memory beyond 2^37 bytes, where the 64-bit price of memory would wrap, counts as out of gas.
* For conservation over blocks, the total of all balances and the products of price and gas limit stay
  below 2^256.
* The assertions in the frame pool are compiled out: an exhausted pool makes a call push zero.

## Model

| member | source | states |
|---|---|---|
| `HexPrefix.ToBytesToNibbles` | src/trie/nibbles.c:5-34 | expanding a key to nibbles loses nothing: packing gives the bytes back |
| `HexPrefix.ToNibblesToBytes` | src/trie/nibbles.c:5-34 | every nibble string of even length is the expansion of the bytes it packs to |
| `HexPrefix.Unpack` | src/trie/nibbles.c:5-23 | the loop that fills the nibble array leaves exactly the expansion after what was there |
| `HexPrefix.NibblesFromBytes` | src/trie/nibbles.c:5-23 | the nibbles of a byte key, high half first |
| `HexPrefix.CommonPrefixUnique` | src/trie/nibbles.c:51-60 | the common prefix is the one length at which the two strings agree and then part |
| `HexPrefix.DecodeEncode` | src/trie/hex_prefix.c:9-119 | decoding a hex-prefix encoding gives back path and leaf flag, for every path |
| `HexPrefix.EncodeInjective` | src/trie/hex_prefix.c:9-58 | no two paths or flags share an encoding |
| `HexPrefix.EncodeDecode` | src/trie/hex_prefix.c:60-119 | re-encoding what was decoded gives the input back if and only if the two unused flag bits are clear and an even path is padded with zero |
| `HexPrefix.EncodePath` | src/trie/hex_prefix.c:9-58 | the encoding loop produces the hex-prefix code |
| `HexPrefix.DecodePath` | src/trie/hex_prefix.c:60-119 | the decoder, empty input refused, computes the inverse |
| `TrieMap.InsertIsUpdate` | src/trie/mpt.c:87-376 | after an insert every nibble key looks up as in the old trie except the inserted one, prefixes of other keys and empty values included |
| `TrieMap.CollapseKeepsLookup` | src/trie/mpt.c:400-477 | collapsing a branch with one entry left changes no lookup |
| `TrieMap.DeleteIsRemove` | src/trie/mpt.c:488-620 | delete reports not found exactly when the key is absent, and otherwise removes that key and no other |
| `TrieNormal.InsertKeepsNormal` | src/trie/mpt.c:87-376 | insert keeps the normal form: extensions have a path and a branch below, branches have two entries or more |
| `TrieNormal.CollapseIsNormal` | src/trie/mpt.c:400-477 | a branch left with one entry collapses to a normal node |
| `TrieNormal.DeleteKeepsNormal` | src/trie/mpt.c:488-620 | delete keeps the normal form |
| `TrieNormal.NormalFormUnique` | src/trie/mpt.c:87-620 | two normal tries with the same lookups are the same tree |
| `TrieRuns.ApplyRefinesMap` | src/trie/mpt.c:627-803 | one write or erasure acts on the trie as it does on a finite map |
| `TrieRuns.RunRefinesMap` | src/trie/mpt.c:627-803 | after any sequence of writes and erasures the trie holds exactly the entries of the map and is in normal form |
| `TrieRuns.OrderIrrelevant` | src/trie/mpt.c:627-803 | runs that end in the same map end in the same trie, whatever their order |
| `TrieCommitment.StripKeepsEncoding` | src/trie/node.c:83-162 | a branch value of length zero leaves no trace in the encoding |
| `TrieCommitment.SameEncodingSameItems` | src/trie/node.c:83-162 | equal node encodings have equal items one by one |
| `TrieCommitment.SameRefSameEncoding` | src/trie/node.c:185-209 | equal child references, embedded, hashed or null, mean equal child encodings |
| `TrieCommitment.EncodeInjective` | src/trie/node.c:65-209 | nodes with equal encodings are equal up to invisible empty branch values, unless the hash collides on the encodings of the two |
| `TrieCommitment.RootHashCommits` | src/trie/mpt.c:805-816 | equal root hashes if and only if equal tries, empty branch values aside, for a hash without collision on their encodings |
| `TrieCommitment.RunsCommit` | src/trie/mpt.c:627-816 | two runs whose surviving values are non-empty end in equal root hashes if and only if they end in the same map |
| `TrieInvisible.RunsShareRoot` | src/trie/mpt.c:627-816 | any two runs end in equal root hashes if and only if their maps agree except for empty values at keys where both maps fork |
| `TrieInvisible.StrippedAgree` | src/trie/node.c:83-162 | tries written alike agree at every key, or both have a branch there that shows no value |
| `TrieInvisible.StripsAlike` | src/trie/node.c:131-158 | tries that differ only in empty values at branches are written alike |
| `TrieCommitment.EmptyValueIsInvisible` | src/trie/node.c:131-158 | the condition is needed: two runs with different maps and equal root hashes, for every hash function |
| `TrieHeap.MptNode.Leaf` | src/trie/node.c:23-34 | a fresh leaf, owned by nobody else, with no cached hash |
| `TrieHeap.MptNode.Extension` | src/trie/node.c:36-47 | a fresh extension over a child with the reference of that child as it is |
| `TrieHeap.MptNode.Branch` | src/trie/node.c:49-63 | a fresh branch with sixteen null slots |
| `TrieHeap.NodeHash` | src/trie/node.c:164-183 | the hash returned, cached or not, is the hash of the current encoding; the cache stays right |
| `TrieHeap.NodeRef` | src/trie/node.c:185-209 | the reference returned is that of the node as it is now: its bytes below 32 of them, their hash otherwise |
| `TrieHeap.FindDivergence` | src/trie/mpt.c:39-49 | the length of the common prefix of a path and the rest of a key |
| `TrieHeap.InsertAtLeaf` | src/trie/mpt.c:106-260 | a leaf is overwritten or split in place into the branch, under an extension if need be, of the tree function |
| `TrieHeap.SplitExtension` | src/trie/mpt.c:262-336 | an extension split where the key leaves its path becomes the tree the pure insert gives |
| `TrieHeap.InsertRecursive` | src/trie/mpt.c:87-376 | in-place insert: the node object returned represents the pure insert, owns disjoint parts, and every stored reference and valid cached hash matches its child as it now is |
| `TrieHeap.FindSingleChild` | src/trie/mpt.c:384-395 | the one occupied slot, or -1 when there is not exactly one |
| `TrieHeap.BranchChildCount` | src/trie/node.c:211-219 | the number of occupied slots |
| `TrieHeap.CollapseBranch` | src/trie/mpt.c:400-477 | in-place collapse of a branch with one entry left, merging paths, is the pure collapse with coherent references |
| `TrieHeap.DeleteRecursive` | src/trie/mpt.c:488-620 | in-place delete: outcome and tree are those of the pure delete, with coherent references and caches throughout |
| `Mpt.EraseRefinesMap` | src/trie/mpt.c:781-803 | deleting from the root is removal from the map, found exactly when present |
| `Mpt.MerklePatriciaTrie.Insert` | src/trie/mpt.c:627-645 | insert is map update, and keeps the object valid: normal form, coherent references and caches |
| `Mpt.MerklePatriciaTrie.Delete` | src/trie/mpt.c:781-803 | delete is map removal and returns whether the key was present |
| `Mpt.MerklePatriciaTrie.Lookup` | src/trie/mpt.c:647-714 | lookup is map lookup; a present empty value is told apart from absence |
| `Mpt.MerklePatriciaTrie.Contains` | src/trie/mpt.c:716-778 | contains is map membership |
| `Mpt.MerklePatriciaTrie.ComputeRootHash` | src/trie/mpt.c:805-816 | the root hash from cached parts equals the one computed from scratch on the tree, whose bytes `NodeBytes` tells |
| `Mpt.Descend` | src/trie/mpt.c:647-714 | the lookup loop over nodes and offset returns the value of the key in the tree |
| `NodeEncoder.EncodeLink` | src/trie/node.c:65-81 | a reference to nothing, be it absent, empty or a zero hash, is written as the empty string; a node reference as its bytes or its hash |
| `NodeEncoder.EncodeNode` | src/trie/node.c:83-162 | the buffer-built encoding of a leaf, extension or branch is the encoding function; the reservation always suffices |
| `NodeBytes.PathStarts` | src/trie/hex_prefix.c:9-58 | the first byte of a path: 0 to 3 for extension or leaf and parity, above the first nibble of an odd path or zero |
| `NodeBytes.PathGoesOn` | src/trie/hex_prefix.c:9-58 | the other bytes: the rest of the path in pairs, high nibble first |
| `NodeBytes.LeafBytes` | src/trie/node.c:95-112 | a leaf is the list of its path and its value |
| `NodeBytes.ExtensionBytes` | src/trie/node.c:113-129 | an extension is the list of its path and, for its child, the bytes of the child below 32 of them or 0xa0 and their hash |
| `NodeBytes.BranchBytes` | src/trie/node.c:130-158 | a branch is the list of its sixteen children from slot zero up, each likewise or 0x80 for none, and its value |
| `NodeBytes.EmbeddedLeaves` | src/trie/mpt.c:627-816 | for every hash, writing 1 under 0x00 and 0x10 ends in the hash of 22 bytes spelled out, both leaves embedded |
| `NodeBytes.EmbeddedBranch` | src/trie/mpt.c:627-816 | likewise under 0x00 and 0x01: an extension over an embedded branch |
| `NodeBytes.HashedLeaves` | src/trie/mpt.c:627-816 | values of 32 bytes: both leaves stand in the branch by their hash |
| `StateRoot.EncodingInjective` | src/state/account.c:33-67 | no two accounts share an encoding |
| `StateRoot.RunMirrors` | src/state/world_state.c:689-717 | under hashed keys the trie map says of every known address what the plain map says, for a hash without collision on the addresses |
| `StateRoot.StateRootCommits` | src/state/world_state.c:689-781 | two histories of account writes, empty accounts deleted, end in the same state root if and only if they end in the same accounts |
| `Rlp.BytesSelfDelimiting` | src/rlp/encode.c:40-75 | the header of an encoded string tells where it ends, whatever follows |
| `Rlp.ListSelfDelimiting` | src/rlp/encode.c:165-208 | the header of an encoded list tells where it ends, whatever follows |
| `Rlp.UniqueSplit` | src/rlp/encode.c:40-208 | a payload splits into items in exactly one way |
| `Rlp.EncodeBytesInjective` | src/rlp/encode.c:40-75 | no two strings share an encoding |
| `Rlp.EncodeListInjective` | src/rlp/encode.c:165-208 | no two payloads share a list encoding |
| `Rlp.StringBytes` | src/rlp/encode.c:40-75 | a string by its bytes: itself if one byte below 0x80, otherwise a header on 0x80 with the length, in digits without a leading zero from 56 bytes on, and the string |
| `Rlp.ListBytes` | src/rlp/encode.c:165-208 | a list by its bytes: a header on 0xc0 with the length of the payload, and the payload |
| `ByteBuffer.Buffer.Reserve` | src/types/bytes.c:12-45 | contents survive a reservation; an arena buffer that has memory never gets more |
| `ByteBuffer.Buffer.Append` | src/types/bytes.c:63-82 | an append adds its bytes at the end or, when it cannot, changes nothing and says so |
| `ByteBuffer.WriteLengthBytes` | src/rlp/encode.c:10-38 | the shortest big-endian digits of a length |
| `ByteBuffer.ListStart` | src/rlp/encode.c:156-163 | nine bytes are held back at the end of the buffer if they fit |
| `ByteBuffer.ListEnd` | src/rlp/encode.c:165-208 | everything appended since the start becomes the payload of an RLP list; bytes before it are untouched |
| `RlpEncoder.EncodeByteString` | src/rlp/encode.c:40-75 | the buffer-built encoding of a string, short or long |
| `RlpEncoder.EncodeU64` | src/rlp/encode.c:77-105 | the minimal encoding of a 64-bit integer |
| `RlpEncoder.EncodeAddress` | src/rlp/encode.c:144-154 | the string encoding of twenty bytes |
| `RlpEncoder.PeakCoversEncoding` | src/rlp/encode.c:156-208 | the room the builder needs at its peak covers the encoding |
| `RlpEncoder.Emit` | src/rlp/encode.c:156-208 | any well-nested use of the list builder appends the recursive list encoding and leaves earlier bytes alone |
| `KeptItems.EmitKept` | src/rlp/encode.c:156-208 | the builder in a buffer of any size: strings that no longer fit are dropped and lists are closed around what was kept |
| `KeptItems.KeepsWhole` | src/types/bytes.c:11-35 | a value is kept whole if and only if the builder's peak fits the room |
| `KeptItems.KeptLoses` | src/rlp/encode.c:156-208 | whatever is not kept whole loses at least one header or string |
| `KeptItems.ItemTokens` | src/rlp/decode.c:42-260 | the decoder sees as many headers and strings in an encoding as the value has, whatever follows it |
| `RlpDecoder.BytesCanonical` | src/rlp/decode.c:42-120 | a string is accepted if and only if its canonical encoding stands at the cursor |
| `RlpDecoder.ListHeaderCanonical` | src/rlp/decode.c:216-260 | a list header is accepted if and only if it is the canonical header of the length returned |
| `RlpDecoder.IntCanonical` | src/rlp/decode.c:122-192 | an integer is accepted if and only if its canonical encoding stands at the cursor, or it is zero written as the byte 0x00 |
| `RlpDecoder.AcceptedReencodes` | src/rlp/decode.c:42-120 | an accepted string re-encodes to the bytes read |
| `RlpDecoder.Decoder.DecodeLength` | src/rlp/decode.c:17-40 | length digits are read most significant first, leading zeros and short input refused |
| `RlpDecoder.Decoder.DecodeBytes` | src/rlp/decode.c:42-120 | the cursor method returns what the reading function says, error included, and moves past the encoding |
| `RlpDecoder.Decoder.DecodeInt` | src/rlp/decode.c:122-158 | an integer of bounded width, with the overflow and leading-zero errors |
| `RlpDecoder.Decoder.DecodeAddress` | src/rlp/decode.c:194-214 | twenty bytes or a wrong-size error |
| `RlpDecoder.Decoder.DecodeListHeader` | src/rlp/decode.c:216-260 | the payload length, with the cursor just past the header |
| `WordBytes.FromBytes` | src/types/uint256.c:373-406 | the word with the value of the bytes, the last 32 of them if there are more |
| `WordBytes.ToBytes` | src/types/uint256.c:408-420 | 32 bytes whose big-endian value is the word |
| `WordBytes.EncodeUint256` | src/rlp/encode.c:107-142 | the minimal encoding of a 256-bit integer |
| `Accounts.AccountFits` | src/state/account.c:37-41 | every account needs at most 117 bytes at the peak, so the 128 reserved always suffice |
| `Accounts.EncodeAccount` | src/state/account.c:33-67 | the list of nonce, balance, storage root and code hash |
| `Accounts.DecodeAccount` | src/state/account.c:69-118 | accepted if and only if the input is one list of the four fields and nothing else, zero integers also as 0x00 |
| `Accounts.RoundTrip` | src/state/account.c:33-118 | every account decodes to itself |
| `TxFields.DecodeU64` | src/ethereum/transaction/rlp.c:53-59 | a 64-bit field is read back, and what is read was there in one of the two accepted forms |
| `TxFields.DecodeWord` | src/rlp/decode.c:160-192 | a 256-bit field as limbs is read back, and what is read was there in one of the two accepted forms |
| `TxFields.DecodeEntriesList` | src/ethereum/transaction/rlp.c:151-216 | an encoded access list at the cursor is read back whole and consumed exactly |
| `TxFields.DecodeAuthsList` | src/ethereum/transaction/rlp.c:220-291 | an encoded authorization list at the cursor is read back whole and consumed exactly |
| `TxFields.DecodeHashesList` | src/ethereum/transaction/rlp.c:293-329 | an encoded list of blob hashes at the cursor is read back whole and consumed exactly |
| `TxFields.DecodeField` | src/ethereum/transaction/rlp.c:53-146 | every kind of field is read back; flat kinds consume exactly the length of their encoding |
| `Transactions.FieldsMatch` | src/ethereum/transaction/rlp.c:335-839 | for all five types the decoder reads the fields in the order the encoder writes them |
| `Transactions.Assemble` | src/ethereum/transaction/rlp.c:335-472 | the decoded fields are put where the encoder took them from |
| `Transactions.EncodeTransaction` | src/ethereum/transaction/rlp.c:596-859 | type byte and what is kept of the fields in the room reserved for the type, for every transaction whose lists can be started; the place of each field is `TxWire.Encode` |
| `Transactions.DecodeTransaction` | src/ethereum/transaction/rlp.c:474-520 | an encoded transaction at the front of the data is read back with the number of bytes it takes; what is accepted never has more headers and strings than the data |
| `Transactions.DecodeLegacy` | src/ethereum/transaction/rlp.c:335-363 | a legacy transaction is accepted if and only if the data begins with a list header, of whatever length, and bytes accepted for its nine fields; the place of each field is `TxWire.Decode` |
| `TxRoundTrips.RoundTrip` | src/ethereum/transaction/rlp.c:335-859 | a transaction of any of the five types whose lists can be started decodes to itself if and only if the builder's peak fits the room reserved for its type |
| `TxRoundTrips.LegacyRoundTrip` | src/ethereum/transaction/rlp.c:335-633 | a legacy transaction of any size decodes to itself if and only if payload and nine header bytes fit 256 |
| `TxRoundTrips.LargeDataIsLost` | src/ethereum/transaction/rlp.c:596-859 | inputs on the wrong side of that condition: any transaction whose data and a list header exceed the room |
| `TxRoundTrips.TypedDataIsLost` | src/ethereum/transaction/rlp.c:681-728 | a dynamic fee transaction with 512 bytes of data and an empty access list starts all its lists and still does not survive |
| `TxRoundTrips.WrittenTokens` | src/ethereum/transaction/rlp.c:596-859 | what is written of a transaction that does not fit has fewer headers and strings than the transaction |
| `TxWire.Encode` | src/ethereum/transaction/rlp.c:596-859 | for each of the five types, walking the items of the output by their headers, the item at each position reads as the field of that name, after the type byte |
| `TxWire.Decode` | src/ethereum/transaction/rlp.c:335-520 | a transaction whose fields stand at those positions is the one returned, and the fields of whatever is returned stand there: all of them for legacy transactions, those before the access list for the others |
| `TxWire.EncodeAccount` | src/state/account.c:33-67 | the items of an encoded account read, in this order, as nonce, balance, storage root and code hash |
| `TxWire.DecodeAccount` | src/state/account.c:69-118 | and so do those of the bytes an account was decoded from |
| `KnuthD.EstimateDigit` | src/types/uint256.c:292-305 | the refined estimate is the least of 2^64 - 1 and the quotient of the top three limbs by the top two |
| `KnuthD.DigitWithinOne` | src/types/uint256.c:292-305 | the refined estimate is the true digit or one more |
| `KnuthD.MultiplySubtract` | src/types/uint256.c:307-324 | the in-place multiply and subtract is exact up to one borrow out of the top limb |
| `KnuthD.AddBack` | src/types/uint256.c:329-339 | the in-place add back is exact up to one carry out of the top limb |
| `KnuthD.AddBackRestores` | src/types/uint256.c:329-339 | after a borrow a single add back leaves the true remainder and digit |
| `KnuthD.DivideDigit` | src/types/uint256.c:290-340 | one round of the loop leaves the true digit and a remainder below the divisor, other limbs untouched |
| `LimbShift.ShiftLeft` | src/types/uint256.c:258-283 | normalisation multiplies by a power of two, the carry out of the top accounted for |
| `LimbShift.ShiftRight` | src/types/uint256.c:342-352 | denormalisation divides by it |
| `LongDivision.DivideLimbs` | src/types/uint256.c:248-357 | quotient and remainder of limb strings of any length by a divisor of one limb or more |
| `ReciprocalTable.EntryFits` | src/types/uint256.c:65-81 | every table entry is the floor of 523520 over its nine-bit divisor |
| `Reciprocal.TableError` | src/types/uint256.c:94-97 | the table value is right to within 1279 in 2^19 |
| `Reciprocal.FirstRound` | src/types/uint256.c:98-98 | the error after the first refinement, exactly |
| `Reciprocal.SecondRound` | src/types/uint256.c:100-100 | the error after the second refinement, exactly |
| `Reciprocal.HalfError` | src/types/uint256.c:102-104 | the wrapping 64-bit expression equals half the error rounded down |
| `Reciprocal.ThirdRound` | src/types/uint256.c:105-109 | the error after the third refinement, exactly |
| `Reciprocal.LastStep` | src/types/uint256.c:111-118 | the last correction, done modulo 2^64, gives the reciprocal |
| `Reciprocal.Compute` | src/types/uint256.c:93-118 | for every normalised divisor the result v satisfies (2^64 + v) d < 2^128 <= (2^64 + v + 1) d |
| `Reciprocal.CandidateBounds` | src/types/uint256.c:122-148 | the two one-sided bounds that make the comparison with the low half decisive |
| `Reciprocal.DivRem2By1` | src/types/uint256.c:122-148 | exact quotient and remainder of two limbs by one, despite wrapping intermediates |
| `Reciprocal.DivideByLimb` | src/types/uint256.c:168-208 | exact quotient and remainder of a limb string by one limb through the reciprocal |
| `UInt256.AddCarry` | src/types/uint256.c:593-600 | the carry chain: sum and carry out |
| `UInt256.Add` | include/div0/types/uint256.h:61-72 | sum modulo 2^256 |
| `UInt256.Sub` | include/div0/types/uint256.h:74-85 | difference modulo 2^256 |
| `UInt256.Less` | include/div0/types/uint256.h:87-99 | comparison of values |
| `UInt256.Mul` | src/types/uint256.c:21-58 | product modulo 2^256, column by column |
| `UInt256.DivMod256` | src/types/uint256.c:211-357 | dividend = quotient * divisor + remainder with remainder below divisor, both zero for a zero divisor, on all four paths |
| `ModularArith.MulFull` | src/types/uint256.c:652-667 | the double loop yields the exact 512-bit product |
| `ModularArith.Mod512` | src/types/uint256.c:676-794 | reduction of 512 bits by any word, one-limb divisors included |
| `ModularArith.MulMod` | src/types/uint256.c:796-819 | (a * b) mod n for every a, b, n; zero for n = 0 |
| `ModularArith.ResiduesFit` | src/types/uint256.c:622-633 | the partial sum of residues never overflows, for moduli above and below 2^255 |
| `ModularArith.AddMod` | src/types/uint256.c:587-644 | (a + b) mod n for every a, b, n; zero for n = 0; the second overflow branch is unreachable |
| `Exponent.PendingStep` | src/types/uint256.c:853-863 | one round of square-and-multiply keeps what is still to be multiplied in |
| `Exponent.EvenVanishes` | src/types/uint256.c:840-847 | an even base raised above 255 is zero modulo 2^256 |
| `Exponent.Exp` | src/types/uint256.c:825-866 | the power modulo 2^256, shortcuts included |
| `SignedArith.Truncates` | src/types/uint256.c:458-528 | the signed quotient and remainder are the pair that truncates toward zero |
| `SignedArith.Negate` | src/types/uint256.c:442-446 | two's complement negation |
| `SignedArith.SDiv` | src/types/uint256.c:458-495 | the truncated signed quotient, zero for a zero divisor, the least word over minus one unchanged |
| `SignedArith.SMod` | src/types/uint256.c:497-528 | the signed remainder with the sign of the dividend, zero for a zero divisor |
| `Jumpdest.NoneBetween` | src/evm/jumpdest.h:57-72 | nothing inside the data of a push is an instruction boundary |
| `Jumpdest.ComputeBitmap` | src/evm/jumpdest.h:42-75 | a bit is set if and only if its position is an instruction boundary holding JUMPDEST |
| `OpcodeLaws.InstructionsFollow` | src/evm/jumpdest.h:57-72 | the first instruction starts at zero, each at the end of the one before, and no byte carried by a push is one |
| `OpcodeLaws.JumpLaw` | src/evm/opcodes/control_flow.h:66-92 | JUMP goes to the word on top for 8 gas, if and only if a jump destination is there |
| `OpcodeLaws.JumpIfLaw` | src/evm/opcodes/control_flow.h:100-131 | JUMPI goes there for 10 gas if the word below is not zero and otherwise on, and succeeds if and only if a destination is there or not needed |
| `OpcodeLaws.PushLaw` | src/evm/opcodes/push.h:26-41 | PUSH1 to PUSH32 push the bytes after the opcode as a number, if and only if there is depth and gas |
| `OpcodeLaws.DupLaw` | src/evm/opcodes/stack.h:35-49 | DUP1 to DUP16 copy the n-th word from the top, if and only if there is depth, gas and room |
| `OpcodeLaws.LoadLaw` | src/evm/opcodes/storage.h:13-39 | SLOAD replaces the word on top by what the frame's own address stores there, for 100 or 2100 gas |
| `OpcodeLaws.StoreLaw` | src/evm/opcodes/storage.h:43-89 | SSTORE stores the second word under the first at the frame's own address and nowhere else |
| `OpcodeLaws.StoreGoesOnIff` | include/div0/evm/gas/dynamic_costs.h:37-64 | it succeeds if and only if the frame may write and has more than 2300 gas and the price: 20000, 2900 or 100 by case, and 2100 more for a cold slot |
| `OpcodeLaws.StoreRefunds` | include/div0/evm/gas/dynamic_costs.h:66-91 | and changes the refund counter by the numbers of each case: 4800 for clearing, taken back on refilling, 19900 or 2800 for putting back |
| `OpcodeLaws.LoadAfterStore` | src/evm/opcodes/storage.h:13-89 | a word stored is the word loaded next from the same slot |
| `OpcodeLaws.StorageChanges` | src/evm/opcodes/storage.h:43-89 | no other step changes the word of a slot |
| `OpcodeLaws.StorageOfRun` | src/evm/evm.c:142-336 | over any run, through any nesting of calls, a slot changes only if a frame running at its own address executed an SSTORE to it |
| `OpcodeLaws.LogGoesOnIff` | src/evm/opcodes/logging.h:29-127 | LOG0 to LOG4 succeed if and only if the frame may write, the words and the memory can be had, and the price, told in numbers, is paid |
| `OpcodeLaws.LogLaw` | src/evm/opcodes/logging.h:29-127 | one log is appended, of the frame's own address, with the words below as topics and the named memory as data |
| `Metering.ComputeRefund` | include/div0/evm/gas/dynamic_costs.h:66-91 | the branches add up to a change of the slot's pending worth plus the rate for a restore |
| `Metering.RefundFormula` | include/div0/evm/gas/dynamic_costs.h:37-91 | over any sequence of accesses, charged or starved of gas, the refund is the pending worth of (original, current) plus the rate for every restore |
| `Metering.RefundRemembersRestores` | include/div0/evm/gas/dynamic_costs.h:79-88 | the refund is not a function of (original, current): storing and putting back earns 19900 |
| `Metering.PotentialIffNoRestore` | include/div0/evm/gas/dynamic_costs.h:66-91 | it equals that function if and only if no changed slot was put back to its original value |
| `Metering.RefundBelowPaid` | src/evm/opcodes/storage.h:13-89 | a slot whose first access was charged is always refunded less than was paid for it |
| `Metering.NeverOverpaidIff` | src/evm/opcodes/storage.h:23-71 | refunds of a slot found cold stay within what was paid for it, whatever follows, if and only if its first access was charged or it was empty |
| `Metering.StarvedThenCleared` | src/evm/opcodes/storage.h:23-71 | the failing input: a first access that runs out of gas warms the slot unpaid, and clearing it earns 4800 for 2900 |
| `Metering.UnpaidRefund` | src/evm/opcodes/storage.h:43-89 | a slot that became warm unpaid is refunded at most 1900 above what was paid, and nothing above if it was empty |
| `Metering.PrepaidRefund` | src/executor/intrinsic_gas.c:27-35 | a slot warmed by the access list is refunded at most what was paid for it, its list price included |
| `Metering.PrepaidBoundReached` | src/executor/intrinsic_gas.c:27-35 | and that bound is reached |
| `World.SupplyAfterSub` | src/state/world_state.c:218-233 | a debit takes its amount out of the total or does nothing |
| `World.SupplyAfterAdd` | src/state/world_state.c:200-216 | a credit cannot overflow while the total stays below 2^256, and adds its amount |
| `World.StoreKeepsRefunds` | src/evm/opcodes/storage.h:74-86 | the counter is the sum over written slots of their pending worth plus restores; the clamp to zero is never taken |
| `MachineSteps.OpcodeMeters` | src/evm/evm.c:380-1263 | no opcode creates gas, a call leaves at least 100 less in play, and a free opcode moves forward |
| `MachineSteps.CallMeters` | src/evm/call_op.c:64-117 | a call with its stipend still costs the frames together at least 100 |
| `MachineSteps.OpcodeFlows` | src/evm/opcodes/push.h:26-41 | the program counter ends after the opcode and its immediate data, or at a jump destination |
| `MachineSteps.OpcodeIsolates` | src/evm/opcodes/call.c:78-244 | in a static frame no opcode changes balances, storage, logs, nonces, code or refunds, and its children are static |
| `MachineSteps.CallIsolates` | src/evm/call_op.c:144-311 | all a call changes of the ledger is balances, and only a CALL with value outside static frames |
| `MachineSteps.OpcodeConserves` | src/evm/opcodes/call.c:78-124 | opcodes move ether and never make or burn it |
| `MachineSteps.OpcodeKeepsRefunds` | src/evm/opcodes/storage.h:43-89 | every opcode keeps the refund counter equal to what the slots are worth |
| `MachineSteps.OpcodeBounded` | include/div0/evm/stack.h:92-131 | after every opcode that goes on the stack is inside its array, and a waiting frame has room for the flag and the answer of its call |
| `MachineSteps.OverrunsIffDup` | src/evm/opcodes/stack.h:35-49 | an opcode writes past the end of an operand array if and only if it is a DUP that passes its checks on a full array, which happens at five depths only |
| `MachineRuns.StepLowers` | src/evm/evm.c:172-336 | every step lowers total gas over live frames, or keeps it and lowers depth, or keeps both and lowers the code left |
| `MachineRuns.CallCosts` | src/evm/call_op.c:64-117 | every nested call lowers the total over live frames by at least 100 |
| `MachineRuns.RunFrom` | src/evm/evm.c:142-336 | every run halts, whatever simple opcodes compute from memory, call data, return data or the step they run at |
| `MachineRuns.GasBounded` | src/evm/evm.c:183-186 | reported gas used lies between zero and the initial gas |
| `MachineRuns.StepKeepsBoundary` | src/evm/opcodes/control_flow.h:66-131 | no step leaves any frame inside push data |
| `MachineRuns.StepKeepsLimits` | src/evm/evm.c:278-298 | a step that goes on keeps frame pool, operand arrays and answer windows within bounds, and the depth check in the loop never fires |
| `MachineRuns.StepOverrunsIff` | src/evm/opcodes/stack.h:35-49 | within those bounds a step overruns if and only if it is a DUP on a full array |
| `MachineRuns.PushesOverrun` | include/div0/evm/stack.h:156-159 | the failing input: thirty-two pushes and a DUP |
| `MachineRuns.Sound` | src/evm/evm.c:534-537 | in every run each fetched opcode is at an instruction boundary, limits hold and live gas stays within the initial gas |
| `MachineRuns.RunConserves` | src/evm/evm.c:142-336 | a whole run keeps the total of balances |
| `MachineRuns.RunKeepsRefunds` | src/evm/opcodes/storage.h:74-86 | and ends with a refund counter equal to what the written slots are worth |
| `CallLaws.CallOpensIff` | src/evm/call_op.c:23-311 | a call opcode opens a frame if and only if its words and memory can be had, the price is paid, no value leaves a static frame, fewer than 1023 frames wait and, for CALL and CALLCODE, the balance holds the value |
| `CallLaws.CallOpens` | src/evm/opcodes/call.c:34-244 | the frame opened, told for 0xF1, 0xF2, 0xF4 and 0xFA by the words on the stack: code, address, caller, value, static flag and input; and the caller it leaves waiting, with the window it named |
| `CallLaws.CallGas` | src/evm/call_op.c:64-117 | the price of a call exactly; of what remains the child gets no more than asked and the caller keeps at least a 64th, no more if the child gets less than asked; 2300 on top with a value |
| `CallLaws.CallMoves` | src/evm/opcodes/call.c:95-105 | account by account, CALL moves its value from caller to target and the other calls move nothing |
| `CallLaws.CallDeclined` | src/evm/opcodes/call.c:87-120 | a call that is paid for and not opened pushes zero and loses the gas set aside for the child |
| `CallLaws.CallEnds` | src/evm/evm.c:188-335 | the step that ends a call pushes one exactly when the frame stopped or executed RETURN with its words and memory, gives back the gas that frame had left, none on failure, and leaves the region handed back in the return buffer |
| `CallLaws.CallAnswered` | src/evm/evm.c:195-335 | from the step that opens a frame to the step that closes it, through any nesting, the caller gets its frame back with that flag, that gas and, in its window and nowhere else, the first bytes of the return buffer |
| `CallLaws.RunEnds` | src/evm/evm.c:172-336 | a run succeeds exactly when its first frame stops or executes RETURN; gas used and output are told by its last opcode |
| `Funding.OpcodeFunds` | src/evm/opcodes/storage.h:13-89 | every opcode pays for the slots it touches or leaves them starved |
| `Funding.RefundWithinGas` | src/evm/evm.c:142-336 | over any run the refund stays within the gas used plus 1900 for every slot warmed unpaid, with 100 to spare for every other |
| `Funding.ChargedRefundBelowGas` | src/evm/evm.c:142-336 | a run whose slots were all charged at first access is refunded less than the gas it used |
| `Funding.StarvedRun` | src/evm/opcodes/storage.h:23-28 | the failing run, from a root frame: a delegate call starves the slot, the caller clears it, 3027 gas used and 4800 refunded |
| `MachineRuns.StaticIsolation` | src/evm/opcodes/call.c:126-160 | from a static frame until the step on which it returns, through any nesting, all frames are static and the ledger is unchanged |
| `MachineRuns.StaticCallOpensStatic` | src/evm/opcodes/call.c:126-160 | STATICCALL opens such a frame |
| `OperandStack.Stack.Grow` | include/div0/evm/stack.h:70-86 | the array is doubled up to 1024 with its items kept, or left alone at the limit |
| `OperandStack.Stack.EnsureSpace` | include/div0/evm/stack.h:92-102 | room for more items if and only if the depth limit allows, by doubling as often as needed |
| `OperandStack.Stack.DupUnsafe` | include/div0/evm/stack.h:156-159 | the item at a depth is pushed, given room in the array |
| `CallFrames.CallFrame.JumpTo` | src/evm/evm.c:345-376 | the bitmap, computed on the first jump and kept, admits exactly the jump destinations of the code |
| `CallFrames.CallFrame.Push` | src/evm/opcodes/push.h:26-41 | PUSH makes room before its unchecked push and reads what the code still has of its data |
| `CallFrames.CallFrame.Dup` | src/evm/opcodes/stack.h:35-49 | DUP on the array; the one handler whose unchecked write may be out of bounds |
| `CallFrames.CallFrame.SLoad` | src/evm/opcodes/storage.h:13-39 | SLOAD warms before it charges; after its pop the array has room for its push |
| `CallFrames.Write` | src/evm/opcodes/storage.h:74-86 | the clamped branch-by-branch update of the counter is the change of the slot's worth |
| `CallFrames.CallFrame.Expand` | src/evm/memory.c:24-97 | memory is zero-filled to the words needed and never shrinks, at the quadratic price |
| `CallFrames.CallFrame.ForwardGas` | src/evm/call_op.c:96-116 | all but a 64th, or what was asked; the clamp is never taken and the stipend comes on top |
| `CallFrames.CallFrame.TakeAnswer` | src/evm/evm.c:195-217 | flag and returned bytes go into a waiting frame without checks and stay in bounds |
| `FrameStacks.FrameStack.Push` | src/evm/evm.c:278-298 | a caller joins the frame stack; those below keep their contents |
| `FrameStacks.FrameStack.Pop` | src/evm/evm.c:195-227 | the last caller comes back as it was left, sharing nothing with those that remain |
| `Interpreter.Evm.Rent` | include/div0/evm/call_frame_pool.h:26-35 | the next frame of the pool is set up afresh, with an operand stack of its own |
| `Interpreter.Evm.Resume` | src/evm/evm.c:188-335 | the finished frame goes back to the pool and its caller goes on, answered |
| `Interpreter.Evm.Execute` | src/evm/evm.c:142-336 | a run in place: gas used within the gas given, supply kept, refund counter balanced |
| `Interpreter.Evm.Run` | src/evm/evm.c:142-336 | the frame loop over the pool of frames halts, with the outcome of the transition system of which the laws of opcodes and calls are proved |
| `Settlement.ValidCanPay` | src/executor/validation.c:46-106 | a valid transaction has a price that covers the base fee and a sender who covers gas and amount |
| `Settlement.RefundCapped` | src/executor/block_executor.c:172-176 | the refund takes off at most a fifth of the gas used |
| `Settlement.RefundWithinBill` | src/executor/block_executor.c:172-176 | before the cap the refund is at most the gas billed, intrinsic gas and access list included, plus 1900 for every starved slot |
| `Settlement.RunCode` | src/executor/block_executor.c:116-204 | gas used after the refund, or the whole limit on failure, lies between zero and the gas limit |
| `Settlement.BillAddsUp` | src/executor/block_executor.c:206-218 | gas given back, tip and base fee add up to what was paid up front |
| `Settlement.TxConserves` | src/executor/block_executor.c:57-229 | a valid transaction goes through: the debits of gas and of the amount both succeed, it stays within its gas limit, and the total of balances falls by exactly base fee times gas used; which accounts change is `LedgerLaws.TxLaw` |
| `Settlement.ProcessTxConserves` | src/executor/block_executor.c:254-295 | one transaction of a block, run if and only if valid, is accounted for |
| `Settlement.BlockConserves` | src/executor/block_executor.c:231-304 | over any block the total of balances falls by exactly base fee times gas used, and gas used stays within the block limit |
| `LedgerLaws.PriceLaw` | include/div0/ethereum/transaction/transaction.h:224-240 | with dynamic fees the price is the lesser of the maximum fee and base fee plus priority |
| `LedgerLaws.IntrinsicLaw` | src/executor/intrinsic_gas.c:5-38 | gas before the run by counts: zero bytes, other bytes, words of creation code, listed addresses and listed keys |
| `LedgerLaws.ValidIff` | src/executor/validation.c:46-106 | a transaction is valid if and only if chain, nonce, gas, block room, fee and balance are all in order |
| `LedgerLaws.RefundTaken` | src/executor/block_executor.c:172-176 | all of the refund is taken off, or the whole fifth of the gas used if that is less |
| `LedgerLaws.ListWarms` | src/executor/block_executor.c:22-33 | the access list warms exactly the addresses and slots it lists |
| `LedgerLaws.SettleBalances` | src/executor/block_executor.c:206-218 | for every account: the sender gets the price of the gas not used, the coinbase price less base fee for the gas used, nobody else anything |
| `LedgerLaws.RunKeepsAccounts` | src/evm/evm.c:142-336 | no run changes a nonce or a code |
| `LedgerLaws.TxLaw` | src/executor/block_executor.c:57-229 | a valid transaction from beginning to end: the frame its run starts from, every balance, nonce and warm entry before the run, the gas billed, and every balance, code and nonce after it |
| `LedgerLaws.PlainTransfer` | src/executor/block_executor.c:57-229 | to an account without code: the sender loses amount and fee, the recipient gains the amount, the coinbase the tip, no other account changes, and the sender's nonce rises by one |
| `LedgerLaws.ProcessTxLaw` | src/executor/block_executor.c:257-289 | every transaction of a block starts with nothing warm and no slot written, runs if valid, and is entered as a receipt or a rejection |
| `LedgerLaws.TxNonces` | src/executor/block_executor.c:79-81 | a transaction that runs raises its sender's nonce by one, short of the last, and lowers no nonce |
| `LedgerLaws.ReplayRejected` | src/executor/validation.c:59-67 | a transaction that has run is rejected when it comes again, whatever transactions stand between |
| `LedgerLaws.ReplayIff` | src/state/world_state.c:254-270 | its nonce turns a repetition away if and only if it is below 2^64 - 2 |
| `LedgerLaws.LastNonceReplays` | src/state/world_state.c:254-270 | the failing input: two copies with that nonce both run |
| `Executor.BlockExecutor.WarmAccessList` | src/executor/block_executor.c:22-33 | the loops warm every listed address and key |
| `Executor.BlockExecutor.ExecuteTransaction` | src/executor/block_executor.c:57-229 | a transaction in place, with the outcome of the settlement function, whose effect on every account is `LedgerLaws.TxLaw` |
| `Executor.BlockExecutor.Run` | src/executor/block_executor.c:231-304 | the block loop in place, with conservation and the gas limit as consequences |

## Left out

- Snapshots, reverts and commits of the world state: the source has stubs that do nothing, so no rollback is claimed.
- Keccak and secp256k1 internals, sender recovery and transaction hashes: the hash is a parameter and senders are given.
- Allocation failure and the lifetime of arena memory.
- What the simple opcodes compute: the results hold for every choice, so none is made.
- The jump destination cache shared between frames by code hash: the source never sets the hash; the bitmap kept in each frame is modelled.
- CREATE and CREATE2 as opcodes: the source does not dispatch them.
- SHL, SHR, SAR, SIGNEXTEND, comparison and bitwise words: they would only add members easier than those here.
- Skipping an RLP item without decoding it, and error texts.
- Storage tries under the accounts and the dirty set that schedules their roots: the storage root is a field of the account.
- Post-state export, JSON, the t8n tool and the command line.
- Blob gas accounting and receipts beyond success, gas and counts.
- The 64-bit width of the refund counter and of intrinsic gas: modelled as unbounded.
- TxFields.DecodeHashesList: reads the hashes in one pass; the counting pass of the source, which does not end on a list header longer than the input, is not modelled.
- Transactions.EncodeTransaction: requires that the nine header bytes of every list fit where it is started, because closing a list whose header was refused makes its payload length wrap; every other refused append is covered.
- TxRoundTrips.RoundTrip: the same restriction; legacy transactions have none (`TxRoundTrips.LegacyRoundTrip`).
- Transactions.DecodeTransaction: what else is accepted is characterised for legacy transactions (`Transactions.DecodeLegacy`); the list fields of the typed ones do not compare the lengths their inner headers announce, so for these only what is found when an encoding is there.
- TxWire.Encode: a transaction that does not fit its room has no places to tell; what is written of it is `TxRoundTrips.WrittenTokens`.
- TxWire.Decode: the access list, the lists after it and the signature of typed transactions are told by their places when a transaction stands on the wire whole, not for everything accepted, for the reason given for `Transactions.DecodeTransaction`.
- TxFields.DecodeEntriesList: says what is found when the encoding of a list of entries is there, and how many headers and strings any accepted list takes, not which other lists are accepted.
- TxFields.DecodeAuthsList: likewise for authorizations.
- ByteBuffer.Buffer.Reserve: requests above 2^63 on a buffer without an arena are excluded, because the doubling loop of the source does not end there.
- ByteBuffer.Buffer.Append: the same exclusion.
- StateRoot.StateRootCommits: the storage root is a field of the account; the recomputation of dirty storage roots is not modelled.
- Executor.BlockExecutor: one interpreter object per transaction stands for the one that the source resets; the model ends a block at a transaction that overruns an operand array.
- Settlement.BlockConserves: assumes the supply and price products below 2^256, where the wrapping arithmetic of the source is exact.
