# A verified model of the GoShimmer client wallet

The project models the wallet of the GoShimmer C client and proves what it
keeps over a call, over a transaction and over whole runs.

* **Codec and wire form.** `Base64` says what text means, `Base64Codec` is the
  codec as it runs (a 32-bit accumulator that is never cleared, a validation
  pass before the emitting pass), `Base64Laws` holds the round trips and the
  size bound. `ByteBuffer` is the growing buffer, `WireFormat` the bytes of a
  transaction with a parser for them, `WireLayout` where its parts stand,
  `Transaction` the two-pass essence writer, the text form and the check of
  signatures.
* **Ledger tables.** `UtHash` is the insertion-ordered table with unique keys.
  `Balances`, `OutputIds` and `UnspentOutputs` are the three nested tables
  (address, output id, colour) and the greedy selection; `LedgerLaws` is their
  algebra.
* **Addresses.** `Bitmask` is the growing bit set, `AddressManager` the three
  indices over it, their invariant over every run, and the list queries.
  `Address` holds what a seed determines.
* **Wallet.** `WalletSpec` gives creation, refresh and send as functions of the
  state, `Wallet` (module `WalletApi`) the methods that carry them out,
  `SendLaws` what one send does, `WalletRuns` what every run keeps,
  `WalletRemainder` where change ends up, `WalletCreation` what a created wallet
  starts with and so keeps for life.

Modelling conventions. Objects whose fields the C code updates are classes; a
hash table is a field holding a sequence of entries in insertion order, which
is the order `HASH_ITER` visits. A table nested in an entry is a value: the C
code deep-copies it on every insertion. Sums are taken over the integers and
reduced with `Wrap` where the C code has a `uint64_t`; `Signed` is the
conversion to `int64_t`. The host is little-endian. A `Filter` chooses between
the plain balance functions (`All`) and the coloured ones (`Only`), which differ
in nothing else. The answer of the node to a refresh is a parameter; the text
that is posted is a result. `KeyScheme.Sound` is what is assumed of the foreign
key code: addresses carry the version byte and do not collide, and a signature
verifies under the public key of its index.

What the proofs bring to light:

* A send with change writes the chosen address into the caller's order record.
  A second send from the same record takes that for a caller-supplied remainder
  address and creates no remainder output: the change is lost
  (`ReusedOrderLosesChange`). `Conservation` gives the exact condition.
* Change can go to an address that the wallet has marked spent, where it is never
  counted or spent again (`ChangeOutOfReach`): the search for a remainder address
  passes over consumed addresses, not over spent ones. `ChangeSpentIff` says
  exactly when this happens, and `ChangeLost` gives a wallet of two addresses that
  gets there with its second send. The address called first unspent may itself be
  spent, because the search for the next one stops short of the last index
  (`MarkFirstIff`, `FirstStale`).
* An address that a refresh reports and the table does not know gets index 0, so
  the wallet signs for it with the key of index 0; its own validation still
  passes. `RunIndexedIff` says exactly which runs are free of this and
  `WrongIndexReachable` gives one that is not: asking for a new address does not
  enter it into the table.
* `wallet_init` yields a well-formed address manager exactly when
  `first_unspent <= last_unspent == last_addr` and the last address has a byte
  in the mask (`InitBracketedIff`).
* Marking an index before it was handed out is forgotten when it is handed out
  (`MarkSurvivesIff`).
* The base64 decoder counts spaces in a `uint32_t`: n spaces inside a line are
  accepted exactly when n is a multiple of 2^32 (`SpacesInsideLineIff`, and
  `SpacedBlockIff` on a block of four letters).

Where the code and its documentation disagree the model follows the code: on an
invalid character `base64_decode` leaves `*olen` alone although the header says
it is always updated; the comment on the marking loop speaks of a transaction
sent successfully, but the loop also runs when posting failed; `wallet_refresh`
reports success when the query of the node failed.

## Model

| member | source | states |
|---|---|---|
| Base64Laws.EncodingDecodes | src/utils/base64.c:47-172 | decoding an encoding gives the bytes back; every encoding is accepted text without white space |
| Base64Laws.DecodingEncodes | src/utils/base64.c:84-172 | accepted text is reproduced by encoding its decoding exactly when it has no white space, whole blocks and zero unused bits |
| Base64Laws.SizeBound | src/utils/base64.c:146-170 | for 4k + r characters, j of them padding: the rearranged size formula is 3k + r - j without underflow, 3k - max(0, j - r) bytes are written, equal exactly when r <= j |
| Base64Laws.WhiteSpaceIrrelevant | src/utils/base64.c:113-162 | both passes agree on white space: without it accepted text stays accepted and means the same bytes |
| Base64Laws.SpacesInsideLineIff | src/utils/base64.c:113-130 | n spaces put in front of a data character leave a text acceptable exactly when it was so and n is a multiple of 2^32; the characters that count are the same |
| Base64Laws.SpacedBlockIff | src/utils/base64.c:113-130 | one letter, n spaces and three letters are accepted exactly when n is a multiple of 2^32 |
| Base64Laws.SpaceInsideLineRefused | src/utils/base64.c:115-130 | in accepted text of any length a data character follows a space only behind a run of at least 2^32 spaces |
| Base64Laws.Alphabet | src/utils/base64.c:29-32 | the letter of each of the 64 values |
| Base64Laws.KnownAnswers | src/utils/base64.c:29-32 | the alphabet and the bit order, on published vectors |
| Base64Laws.AcceptedIff | src/utils/base64.c:113-139 | which texts are accepted, said on the bytes: the alphabet, spaces and line ends; every CR directly before a LF; a data character behind 0 spaces modulo 2^32; at most two '=', with nothing but white space and '=' behind the first |
| Base64Laws.CarriageReturnIff | src/utils/base64.c:125-134 | a CR put anywhere into any text is accepted exactly before a LF and not behind a CR, if the text was accepted without it |
| Base64Laws.BareCarriageReturn | src/utils/base64.c:125-134 | a block with a bare CR at its end is refused, with CR LF accepted |
| Base64Codec.Encode | src/utils/base64.c:47-103 | all four outcomes: empty input, unrepresentable size, buffer too small (with the size needed), or the encoding and a zero byte with the rest of the buffer untouched |
| Base64Codec.Validate | src/utils/base64.c:113-139 | the first pass accepts exactly the well-formed texts, which AcceptedIff spells out, and counts characters and padding |
| Base64Codec.Accumulate | src/utils/base64.c:161-162 | the low bits of the 32-bit accumulator hold the digits of the current block, whatever older bits remain |
| Base64Codec.Emit | src/utils/base64.c:158-172 | the second pass writes the decoding, no more than its size, and nothing behind it |
| Base64Codec.Decode | src/utils/base64.c:108-175 | refused exactly when not well-formed, so never accepted with a CR that no LF follows; else empty, buffer too small with the announced size, or the decoding |
| ByteBuffer.ByteBuf.Reserve | src/utils/byte_buffer.c:69-86 | grows to exactly the requested size or leaves the storage alone; contents stay |
| ByteBuffer.ByteBuf.Append | src/utils/byte_buffer.c:52-67 | contents grow by the bytes appended; storage is replaced only when it does not suffice |
| ByteBuffer.ByteBuf.Set | src/utils/byte_buffer.c:38-50 | contents become the given bytes |
| ByteBuffer.ByteBuf.ToBase64 | src/utils/byte_buffer.c:144-165 | the zero-terminated encoding in a buffer of exactly that size, or null for an empty or unrepresentable one |
| WireFormat.WireParses | src/core/transaction.c:100-182 | a parser recovers exactly the inputs, the outputs with balances and the signatures with public keys from the serialized form |
| WireFormat.ParsedIsWire | src/core/transaction.c:100-182 | the parser reads nothing but serialized forms, so no two byte strings mean the same transaction |
| WireLayout.CountLayout | src/core/transaction.c:120-173 | a list length is four bytes, least significant first, modulo 2^32 |
| WireLayout.EssenceLayout | src/core/transaction.c:120-173 | the number of inputs, input k at 4 + 65k, the number of outputs, the outputs, four zero bytes |
| WireLayout.OutputLayout | src/core/transaction.c:141-163 | an output behind those before it: 33 bytes of address, the number of coins, coin j at 37 + 40j |
| WireLayout.CoinLayout | src/core/balance.c:48-60 | a coin: eight bytes of two's complement, least significant first, and the colour |
| WireLayout.SignatureLayout | src/core/transaction.c:274-289 | behind the essence record k at 97k: the tag 1, public key, signature; a zero byte at the end |
| Balances.CoinRoundTrip | src/core/balance.c:48-60 | the two's complement little-endian image of a balance gives the balance back |
| Transaction.Tx.EssenceSize | src/core/transaction.c:104-118 | the first pass computes the size of the essence |
| Transaction.Tx.WriteEssence | src/core/transaction.c:120-173 | every copy stays in bounds, the final offset is the computed size and the buffer holds the essence |
| Transaction.Tx.Serialize | src/core/transaction.c:274-289 | essence, tagged signature records and a zero byte, in storage of exactly that size |
| Transaction.AppendRecords | src/core/transaction.c:279-288 | after the reservation no append, the one of the zero byte included, replaces the storage |
| Transaction.Tx.ToBase64 | src/core/transaction.c:274-295 | the text form of the transaction |
| Transaction.TextDecodes | src/core/transaction.c:274-295 | the text is accepted by the decoder, decodes to the serialized bytes and parses to all that was put in |
| Transaction.TextDetermines | src/core/transaction.c:274-295 | two texts are equal exactly when inputs, outputs and signatures are |
| Transaction.SignatureTable.Add | src/core/signatures.c:3-23 | the first signature of an address stays; a new address goes to the end |
| Transaction.Tx.SignaturesValid | src/core/transaction.c:184-210 | true exactly when there is a signature and each input's first 33 bytes have an entry that verifies the essence; one rejected entry makes it false |
| Transaction.ValidIff | src/core/transaction.c:184-210 | the same of the specification: when validity holds and when it fails |
| UtHash.InsertAllIsUnion | src/core/output_ids.c:28-33 | adding the entries of a table one by one is a left-biased union that keeps both orders and unique keys |
| UtHash.InsertIs | src/core/output_ids.c:3-21 | adding an entry puts it at the end if its key is new and changes nothing else |
| UtHash.MissingOrder | src/core/output_ids.c:28-33 | what a union adds keeps the order of the table added |
| UtHash.InsertIntoEmpty | src/core/balance.c:162-167 | a clone equals its original |
| UtHash.InsertAllIdempotent | src/core/unspent_outputs.c:35-42 | adding the same table twice changes nothing |
| Balances.BalanceTable.Add | src/core/balance.c:108-127 | one value per colour, the first one |
| Balances.SumAll | src/core/balance.c:129-134 | the sum of all values modulo 2^64 |
| Balances.SumWithColor | src/core/balance.c:136-145 | the sum of the values of one colour modulo 2^64 |
| Balances.Clone | src/core/balance.c:162-167 | a new table with the same entries in the same order |
| OutputIds.OutputTable.Add | src/core/output_ids.c:3-21 | the first output under an id stays |
| OutputIds.CloneIds | src/core/output_ids.c:28-33 | a new table with the same outputs in the same order |
| OutputIds.IdsBalance | src/core/output_ids.c:35-44 | the confirmed outputs' sum modulo 2^64 |
| OutputIds.IdsBalanceWithColor | src/core/output_ids.c:46-55 | the same for one colour |
| UnspentOutputs.UnspentTable.Add | src/core/unspent_outputs.c:5-24 | a new address goes to the end, unspent; a known one is refused |
| UnspentOutputs.UnspentTable.Update | src/core/unspent_outputs.c:26-33 | replaces the ids of a known address and nothing else |
| UnspentOutputs.UnspentTable.AppendId | src/core/unspent_outputs.c:35-42 | the table with the ids of one address extended; see AppendLaw |
| UnspentOutputs.UnspentTable.SetSpent | src/core/unspent_outputs.c:51-57 | sets one flag |
| UnspentOutputs.UnspentTable.GetSpent | src/core/unspent_outputs.c:59-65 | whether the address is known and marked spent |
| UnspentOutputs.UnspentTable.Balance | src/core/unspent_outputs.c:67-76 | the sum over unspent accounts modulo 2^64 |
| UnspentOutputs.UnspentTable.BalanceWithColor | src/core/unspent_outputs.c:78-87 | the same for one colour |
| UnspentOutputs.UnspentTable.RequiredOutputs | src/core/unspent_outputs.c:89-103 | the greedy loop returns the selection that SelectionStops and SelectionLaw characterize |
| UnspentOutputs.UnspentTable.Clone | src/core/unspent_outputs.c:44-49 | the same accounts in the same order with spent flags cleared |
| LedgerLaws.OneCoinCounts | src/core/unspent_outputs.c:67-87 | a single coin counts exactly if its address is unspent, its output confirmed and its colour asked for |
| LedgerLaws.BalanceAddsUp | src/core/unspent_outputs.c:67-87 | balances add up over coins, outputs and addresses |
| LedgerLaws.SelectionTakes | src/core/unspent_outputs.c:89-103 | only unspent addresses with outputs are taken, in table order, none passed over, and all of them if the target is missed |
| LedgerLaws.SelectionStops | src/core/unspent_outputs.c:89-103 | for any values, overflow included: a prefix of the eligible accounts, no shorter non-empty one reaches the target, and it is reached exactly when some prefix reaches it |
| LedgerLaws.SelectionLaw | src/core/unspent_outputs.c:78-103 | the selection suffices exactly when the whole table does; then it is the shortest sufficient prefix, else everything |
| LedgerLaws.MarkAllPointwise | src/wallet/wallet.c:342-347 | marking changes the spent flags of the listed addresses and nothing else |
| LedgerLaws.MarkingDebits | src/wallet/wallet.c:342-347 | marking a selection takes exactly its balance off the table, in every colour |
| LedgerLaws.AppendLaw | src/core/unspent_outputs.c:35-42 | left-biased, order-preserving union of ids; the balance grows by what the new ids confirm; repetition changes nothing |
| LedgerLaws.CloneBalance | src/core/unspent_outputs.c:44-49 | a clone counts what spent accounts hold; its balance is the original's exactly when that is zero |
| LedgerLaws.BalanceByColor | src/core/unspent_outputs.c:67-87 | the plain balance is, modulo 2^64, the sum of the coloured ones over distinct colours covering the table |
| Bitmask.ApplyBit | src/utils/bitmask.c:56-68 | clear, set and toggle change the one bit they name |
| Bitmask.Mask.Operate | src/utils/bitmask.c:38-70 | as a set of indices: only the given index changes, across any growth |
| Bitmask.Mask.Get | src/utils/bitmask.c:72-80 | membership, for every index the range test handles |
| Bitmask.Mask.Clone | src/utils/bitmask.c:82-96 | the same set and capacity |
| AddressManager.Manager.constructor | src/wallet/address_manager.c:34-60 | the initial state, with a copy of the mask if one is given |
| AddressManager.Manager.GetAddressAt | src/wallet/address_manager.c:71-84 | the address of the index, and the state with the index handed out |
| AddressManager.Manager.GetNewAddress | src/wallet/address_manager.c:87-89 | the address after the last one, handed out |
| AddressManager.GetAddressIs | src/wallet/address_manager.c:71-84 | the last and the last unspent index rise to the index, which is unspent if it is new; nothing else changes |
| AddressManager.NewAddressIs | src/wallet/address_manager.c:87-89 | a new address is the one behind the last; behind index 2^64 - 1 nothing changes |
| AddressManager.FirstUnspent | src/wallet/address_manager.c:13-21 | the least unspent index below last from the given one on, if there is one |
| AddressManager.LastUnspent | src/wallet/address_manager.c:24-32 | the greatest unspent index above 0 up to the given one, if there is one |
| AddressManager.Manager.GetFirstUnspentAddress | src/wallet/address_manager.c:108-110 | the address of the first unspent index, handed out if it was not |
| AddressManager.Manager.GetLastUnspentAddress | src/wallet/address_manager.c:112-114 | the address of the last unspent index, handed out if it was not |
| AddressManager.AskingChangesNothingIff | src/wallet/address_manager.c:71-84 | handing out an index changes nothing exactly when it is at most the last and the last unspent one; so asking for the first or last unspent address of a bracketed manager changes nothing |
| AddressManager.MarkFirstIff | src/wallet/address_manager.c:13-21 | a mark of the first unspent index moves it to the next unspent one below the last index, if there is one, and nothing else moves it; so afterwards it is unspent exactly when there is one, or it was and is not the one marked |
| AddressManager.MarkLastIff | src/wallet/address_manager.c:24-32 | the same for the last unspent index, which moves down and never to 0 |
| AddressManager.GetAddressUnspentIff | src/wallet/address_manager.c:71-84 | when the two indices are still unspent after handing one out: asking for a spent index above the last unspent one moves that to a spent index |
| AddressManager.FirstStale | src/wallet/address_manager.c:13-21 | a run from a new manager whose first unspent index is spent while later ones are not |
| AddressManager.Manager.MarkSpentAddress | src/wallet/address_manager.c:94-106 | the index joins the spent set and both index searches take effect |
| AddressManager.Manager.UnspentAddresses | src/wallet/address_manager.c:131-146 | the unspent indices from the first unspent one to the last address |
| AddressManager.Manager.SpentAddresses | src/wallet/address_manager.c:148-163 | the spent indices up to the last address |
| AddressManager.Manager.Addresses | src/wallet/address_manager.c:116-129 | all indices up to the last address |
| AddressManager.GetAddressKeeps | src/wallet/address_manager.c:71-84 | keeps the brackets; the bit cleared for a new index was not set |
| AddressManager.MarkKeeps | src/wallet/address_manager.c:94-106 | keeps the brackets and adds just the index |
| AddressManager.RunKeeps | src/wallet/address_manager.c:71-106 | over every run first <= last unspent <= last < capacity, all indices below the first and above the last unspent one are spent, and a spent index stays spent |
| AddressManager.RunRetains | src/wallet/address_manager.c:71-106 | over every run from any state, marks ahead of time included: an index handed out stays so and, if spent, stays spent |
| AddressManager.RunFromFresh | src/wallet/address_manager.c:34-60 | the same from a new manager, for every split of the run |
| AddressManager.MarkSurvivesIff | src/wallet/address_manager.c:71-95 | a mark survives handing the index out exactly when it was handed out before |
| AddressManager.ListedExactly | src/wallet/address_manager.c:116-163 | a list holds just the wanted indices of its range with their addresses, increasing |
| AddressManager.ShortcutComplete | src/wallet/address_manager.c:131-146 | starting at the first unspent index loses no unspent address |
| AddressManager.ListsPartition | src/wallet/address_manager.c:116-163 | unspent and spent list together are the full list |
| Address.EmptyIs | src/wallet/wallet.c:32 | the empty address is 33 zero bytes |
| Address.SoundSchemeExists | src/core/address.c:98-146 | the assumptions on the key code are consistent and put the tag 1 in front of every address |
| SendLaws.RemainderLaw | src/wallet/wallet.c:31-44 | the search ends at the first address from the first unspent index on that is not consumed; it is the first unspent address exactly when that is not consumed; it exists in the manager afterwards and no index handed out before changes |
| SendLaws.RemainderExistsIff | src/wallet/wallet.c:34-46 | a real address is chosen exactly when first unspent <= last address |
| WalletApi.ChooseAddress | src/wallet/wallet.c:34-44 | the loop that raises its own bound terminates with the chosen address, its index and the grown manager |
| WalletApi.BuildTxOutputs | src/wallet/wallet.c:26-84 | the outputs, the remainder written back and the manager; see OutputsByPosition |
| SendLaws.OutputsByPosition | src/wallet/wallet.c:26-84 | output by output: the change first, to the chosen address and with its index, then the amount to the receiver with index 0; or one output, in the two cases without change output and when both addresses are the same |
| SendLaws.Conservation | src/wallet/wallet.c:26-84 | the outputs are worth the consumed balance modulo 2^64 exactly when there is no change or the remainder address was empty |
| SendLaws.ReceiverPaid | src/wallet/wallet.c:49-81 | below 2^63: the receiver gets the amount and the chosen address the change, or one output gets everything |
| SendLaws.ReusedOrderLosesChange | src/wallet/wallet.c:31-66 | a second send with change from one order record pays out only the amount |
| WalletApi.Wallet.BuildTxInputs | src/wallet/wallet.c:10-24 | the inputs of the consumed accounts; see InputsByPosition, InputsExact and InputsDistinct |
| SendLaws.InputsByPosition | src/wallet/wallet.c:10-24 | the inputs follow the order of the accounts and of the ids in each |
| SendLaws.InputsExact | src/wallet/wallet.c:10-24 | the inputs name exactly the (address, id) pairs of the consumed accounts |
| SendLaws.InputsDistinct | src/wallet/wallet.c:10-24 | no output is named twice |
| WalletApi.SignTx | src/wallet/wallet.c:86-119 | one entry per consumed address; see SignAllEntries |
| SendLaws.SignAllEntries | src/wallet/wallet.c:110-115 | entry by entry, in table order, public key and signature of the account's index |
| SendLaws.BuiltTransactionValid | src/core/transaction.c:184-210 | every transaction the wallet builds and signs passes its own validation |
| WalletRuns.SignedWithOwnKey | src/wallet/wallet.c:110-115 | the key used is the address's own exactly when the account carries its index |
| WalletRuns.IndexedAfterRefresh | src/wallet/wallet.c:246-260 | accounts carry their indices after a merge exactly when they did before and no unknown address but that of index 0 was reported |
| WalletRuns.RunIndexedIff | src/wallet/wallet.c:226-362 | the same over every run: exactly when it was so at the start and each merged answer named only such addresses |
| WalletSpec.AskedExactly | src/wallet/wallet.c:226-236 | the addresses asked about: all up to the last index, or the unspent ones from the first unspent one on, increasing; none exactly when spent ones are left out and none is unspent |
| WalletApi.Wallet.RefreshFrom | src/wallet/wallet.c:226-268 | the addresses asked about, index by index; success exactly when there is one; the merge of the answer, and no change without an address to ask about or an answer |
| WalletRuns.RefreshContinues | src/wallet/wallet.c:246-260 | no entry is lost or reordered; flags and indices stay; new entries are unspent with index 0 |
| WalletRuns.MergedOrder | src/wallet/wallet.c:246-260 | unknown addresses are added at the end in the order of the answer |
| WalletRuns.MergedIds | src/wallet/wallet.c:246-260 | afterwards an account holds what the answer says of it, else what it held |
| WalletApi.Wallet.Balance | src/wallet/wallet.c:270-273 | the balance modulo 2^64 of the refreshed table, and what the refresh asked about |
| WalletApi.MarkConsumed | src/wallet/wallet.c:342-347 | table and manager after the marking loop; see SendDebits and TransactMarksIndices |
| WalletApi.Wallet.SendFunds | src/wallet/wallet.c:285-362 | result code, new state, remainder written back and addresses asked about, on every path; nothing is posted unless the order is covered and the text has a size_t length, else one text that the decoder accepts and from which inputs, outputs and signatures can be read |
| SendLaws.SendPosts | src/wallet/wallet.c:285-340 | the same of the specification |
| WalletRuns.SendConsumes | src/wallet/wallet.c:299-312 | a send consumes unspent addresses with outputs in table order, none passed over, enough for the amount and without the last one too few |
| WalletRuns.SendDecides | src/wallet/wallet.c:285-362 | a send goes through exactly when amount and receiver are given and the selection covers the amount, it never fails its own validation, and otherwise changes nothing but by the refresh |
| WalletRuns.SendSucceedsIff | src/wallet/wallet.c:285-362 | with true totals: a send succeeds exactly when amount and receiver are given and the refreshed table covers the amount |
| WalletRuns.SendDebits | src/wallet/wallet.c:299-347 | a send debits exactly what it consumed, in every colour; only spent flags change |
| WalletRuns.TransactMarksIndices | src/wallet/wallet.c:342-347 | among the indices handed out before, a successful send marks exactly those of the consumed accounts; if none was spent ahead of that, the spent set grows by just these |
| WalletRuns.MarkIndicesFirst | src/wallet/wallet.c:342-347 | after the marking loop the first unspent index is the least unspent one from where it stood, if one is left below the last index |
| WalletRuns.MarkIndicesLast | src/wallet/wallet.c:342-347 | the last unspent index is the greatest one above 0 up to where it stood, if one is left |
| WalletRuns.SentTransaction | src/wallet/wallet.c:314-340 | the one text posted reads as inputs naming every consumed output once, a signature per consumed address that verifies, and outputs worth what was consumed if the remainder address was empty |
| WalletRuns.RunExtends | src/wallet/wallet.c:226-362 | over every run no entry of the table is lost, reordered, given another index or made unspent again |
| WalletRuns.SpentStays | src/wallet/wallet.c:246-260 | no event of a run clears a spent flag |
| WalletRuns.NoAddressConsumedTwice | src/wallet/wallet.c:299-347 | the address sets consumed by two sends of a run are disjoint, whatever the node answers |
| WalletRuns.IndexStaysSpent | src/wallet/address_manager.c:71-106 | no event of a run makes an index that was handed out unspent again; none at all, if only such indices were spent at the start |
| WalletRuns.RunRemainder | src/wallet/wallet.c:34-44 | in every state of every run with first unspent <= last address at the start, the remainder address is the wallet's own and not consumed |
| WalletRuns.RunKeepsInv | src/wallet/wallet.c:226-362 | from a start with proper brackets, brackets, unique keys and bounded indices hold in every state of every run |
| WalletRuns.RunAgrees | src/wallet/wallet.c:342-347 | in every state of every run a flag set in the table has its bit in the mask, whatever the node answers; the converse holds as long as accounts carry their indices |
| WalletRuns.MergeAgreesIff | src/wallet/wallet.c:246-260 | a merge loses the converse exactly when it reports an unknown address while index 0 is spent |
| WalletRemainder.ChangeSpentIff | src/wallet/wallet.c:31-44 | the change of a successful send goes to an address marked spent exactly when, from the first unspent index on, a spent address comes next behind consumed ones only |
| WalletRemainder.ChangeOutOfReach | src/wallet/wallet.c:299-347 | what is sent there stays marked, and no later send of any run consumes it |
| WalletRemainder.ChangeLost | src/wallet/wallet.c:31-66 | a run from a wallet created with proper brackets whose second send loses its change that way |
| WalletApi.Wallet.constructor | src/wallet/wallet.c:121-169 | the state of a new wallet after its first refresh |
| WalletCreation.InitBracketedIff | src/wallet/wallet.c:131-149 | which parameters give a manager with proper brackets |
| WalletCreation.InitIs | src/wallet/wallet.c:131-164 | the three indices as given, the mask and the table before the first refresh |
| WalletCreation.InitStartsRuns | src/wallet/wallet.c:131-169 | for any parameters creation is a run whose only event is the first refresh; before it accounts carry their indices and flags and mask agree; only indices handed out are spent exactly when first <= last + 1 |
| WalletCreation.InitIndexedIff | src/wallet/wallet.c:131-169 | the accounts of the wallet handed out carry their indices exactly when the first answer names only addresses up to the last index |
| WalletCreation.CreatedWalletRuns | src/wallet/wallet.c:121-362 | over the life of every created wallet flags have their bits in the mask, accounts carry their indices exactly when every answer named only known addresses, flags and mask then agree, and the invariant holds for parameters with proper brackets |
| WalletCreation.NewAddressMisindexed | src/wallet/address_manager.c:87-89 | an address asked for and then reported is filed under index 0 |
| WalletCreation.WrongIndexReachable | src/wallet/wallet.c:246-260 | a run of two events from a wallet created with proper brackets that ends with a wrong index |

## Left out

- HTTP, JSON and request building: the answer of the node is an arbitrary table of the shape the deserializer builds, or no answer.
- Ed25519, BLAKE2b, base58 and random numbers: a `KeyScheme` stands for what a seed determines.
- Allocation failure, freeing and printing.
- The big-endian branch of `tx_essence`, which is not implemented in the C code.
- `tx_sign`, hexadecimal conversion, `iota_str`, list wrappers, `output_ids_update` and the `*_remove` functions: the wallet does not need them or they would add only easy members.
- `wallet_receive_address` and its siblings: they forward to the address manager, whose operations are modelled.
- Sharing between nested tables: a nested table is a value, as the C code copies it whenever it stores one.
- Overlap of source and destination in the codec: the source text is a value.
- Sizes of a serialized transaction are unbounded integers; only the text size is compared with the range of `size_t`. If it does not fit, the C code dereferences a null pointer and the model posts nothing.
- A refresh with nothing to ask for frees an uninitialised pointer in the C code; here it changes nothing.
- Bitmask.Mask.Get: the index whose byte is the first one behind the array passes the range test in the C code and reads out of bounds; it is excluded.
- AddressManager.Manager.MarkSpentAddress: requires that its search does not look up the byte just behind the mask; every state whose last index has a byte in the mask satisfies this.
- AddressManager.Manager.UnspentAddresses: requires a last index below 2^64 - 1, above which the C loop does not end, and that no index listed has its byte just behind the mask.
- AddressManager.Manager.SpentAddresses: the same two conditions; as it starts at 0, the last index has a byte in the mask.
- AddressManager.Manager.Addresses: requires a last index below 2^64 - 1.
- WalletApi.Wallet.RefreshFrom: the lookups of its list are granted by a byte in the mask for the last index, also where a narrower condition would do; likewise `Balance` and `SendFunds`.
- WalletApi.Wallet.constructor: requires a last index below 2^64 - 1.
- WalletApi.ChooseAddress: requires that the index space is not exhausted by one index per consumed address.
- LedgerLaws.SelectionLaw: for non-negative values and totals below 2^64; SelectionStops covers all values.
- WalletRuns.SendSucceedsIff: under the same two conditions on values.
- SendLaws.ReceiverPaid: for a consumed balance below 2^63; Conservation holds for every balance, modulo 2^64.
- WireFormat.WireParses: for lists shorter than 2^32, the range of their length fields.
