# A ledger node, modelled and verified

The repository is a peer-to-peer market node. Blocks of signed transactions are kept in a chain; what the
transactions do is written as records into an append-only byte log, and a stack of overlays over that log
(file, state database, head, generation, one more for every transaction tried) lets the node build, try,
accept, replace and drop blocks. This project models that node in Dafny and proves what it keeps.

| file | models |
|---|---|
| `Records.dfy`, `Ledger.dfy` | the log, its byte layout, the two indexes as scans of the log, and every query and operation on it as a function |
| `Rules.dfy` | when each command, transaction and block is applied, and exactly what it then changes |
| `Conservation.dfy`, `Ownership.dfy`, `History.dfy`, `SelfTransfers.dfy` | what balances add up to; who can spend, take over names and issue; the backward walk over an account's transfers; what a transfer to oneself costs |
| `StateDatabases.dfy`, `TransferCursors.dfy` | the layered database and the transfer iterator as classes, proved against those functions |
| `TrxFile.dfy` | the plain file and the copy-on-write page cache |
| `BlockChain.dfy` | target arithmetic, validation, difficulty, mining |
| `NodeSpec.dfy` | the node as a state machine; `Nodes.dfy` is the class with its loops and layers, proved against it |
| `NodeRules.dfy` | which blocks are taken, with which result code, and what submissions, candidates, full blocks and requests do |
| `NodeRuns.dfy`, `StoreMoves.dfy`, `Generation.dfy`, `Siblings.dfy`, `CatchUp.dfy`, `Serving.dfy`, `Replays.dfy` | what every run of the node keeps, candidate blocks, head choice, the catch-up protocol, how often a transaction is applied |
| `Witnesses.dfy` | a concrete node on which the failures named below happen |
| `Blowfish.dfy`, `CipherLaws.dfy` | the cipher and its three modes (ECB, CBC and CFB are sections 6.1, 6.2 and 6.3 of NIST SP 800-38A); what its parts compute, stated apart from the loops |

Hashes, signatures, address encoding and the packing of payloads are parameters (`Env`, `HashFn`): the results
hold for every choice of them. No hash is assumed injective; where the promise needs it, the conclusion is
"equal, or here are two different things with one hash". One hypothesis speaks about hashes: `Siblings.Acceptable`
leaves out a block whose own hash is that of its parent. Hashes are ordered as big-endian numbers.

## Where the code and its comments disagree

The model follows the code and the lemmas say exactly what still holds.

- `validate` never updates `prev_time` (libs/gpm/block_chain/block.cpp:124), so a block only has to be dated 15
  seconds after the epoch; block spacing is not claimed. It accepts the empty chain.
- The target window of a block contains the block's own hash, so `validate`'s target test is the test against the
  maximal hash (`TargetTestIsMaxHashTest`).
- `generate` succeeds only below the target, while its search already stops at the target.
- In head replacement the list of head transactions is read after the head was overwritten
  (libs/gpm/node/node.cpp:747, 752). `HeadGroupAfterReplace` gives the exact condition under which the head group is
  still right, `StoreDependsOnOrder` and `OrphanIsLost` what happens otherwise.
- The loop of `calculate_state_hash` reads into a variable of its own (libs/gpm/statedb/state_database.cpp:503).
  `WrittenHashLoopEnds` shows that the loop as written ends exactly for logs under a megabyte, where it agrees with
  the intended one; everywhere else the assignment to the outer variable is modelled.
- A transfer to the generator can be a transfer to oneself, which destroys the amount. `CommandKeepsTotalExactly` says
  that an applied transfer keeps the stock's total exactly when the effective recipient is not the sender, or nothing
  is sent; `SelfTransferLosesSupply` is a transaction that is applied and does lose supply. Conservation is proved as an
  equation that counts such amounts.
- The history walk ends at a transfer from an account to itself (`SelfTransferEndsWalk`). A party without a registered
  name reads as "", so the walk of the account registered under the empty name also ends at a transfer to or from such
  a party (`UnnamedPartyEndsWalk`). `WalkCompleteExactly` says when a walk is complete.
- A first block is kept whether or not it can be applied; `GenesisAgrees` says exactly when the node starts in
  agreement with its ledger.
- A full block overwrites the block state stored under its state hash before anything is checked
  (libs/gpm/node/node.cpp:621), so even a refused one can stop the node from serving a block it holds
  (`ReceivedServesExactly`, `RefusedReplyBreaksServing`). A sibling that replaces the first block may bring
  transactions, which no fresh peer applies (`FirstReplyExactly`, `OtherFirstHere`). `NextServesExactly` gives, for every
  kind of step, the exact condition under which a node stays able to serve its whole chain.
- A block state may list one transaction twice, and the block then applies it twice (`TwiceListedIsAppliedTwice`);
  `OnceOverRunsExactly` says that this is the only way a transaction is applied twice.
- `commit` on disk writes wherever the file's cursor is; `CommitToFile` says that the file then holds the log exactly
  when the cursor was at its end or nothing was written, and `ApplyBlock` that an accepted block leaves it there.

## Model

| member | source | states |
|---|---|---|
| Records.DecodeEncode | libs/gpm/statedb/state_database.cpp:610-631 | a framed record written anywhere in the log is read back, field by field, from its start |
| Records.EncodedLayout | libs/gpm/statedb/state_database.cpp:610-631 | where each byte of a written record stands: id, length, data, `previous`, every number with its digit of weight 256^i at offset i |
| Records.BytesHoldRecords | libs/gpm/statedb/state_database.cpp:47-57 | at every record's position the bytes of the log decode to that record, with its own start as `previous` |
| Records.TrailerIsLastStart | libs/gpm/statedb/state_database.cpp:49 | the last eight bytes of a log are the start of its last record, so the log can be read backwards |
| Records.RecordsApart | libs/gpm/statedb/state_database.hpp:37-50 | two record positions differ by at least the earlier record's size |
| Records.ChunkHashesAt | libs/gpm/statedb/state_database.cpp:490-514 | one hash for every begun megabyte, hash i being that of the bytes from megabyte i to the next or to the end |
| Records.WrittenHashLoopEnds | libs/gpm/statedb/state_database.cpp:490-514 | the hash loop as written ends if and only if the log is under a megabyte, and then gives the intended hash |
| Ledger.LastEditOfName | libs/gpm/statedb/state_database.cpp:151-210 | on a well-formed log the name index leads to the definition of the name or to an update that points at it, and to the key last given |
| Ledger.NameIndexIsDefinition | libs/gpm/statedb/state_database.cpp:151-176 | the name query equals a full scan for the definition; its exceptions cannot fire |
| Ledger.PublicKeyIsLastGiven | libs/gpm/statedb/state_database.cpp:76-125 | the key query equals a scan for the last key given, and finds one exactly for defined names |
| Ledger.NameIndexUndone | libs/gpm/statedb/state_database.cpp:127-150 | `get_name_for_index` undoes the name query; an unknown name comes back empty |
| Ledger.NameForIndexExactly | libs/gpm/statedb/state_database.cpp:127-150 | asked at any position: the name of a definition, that of the definition an update points at, an error elsewhere |
| Ledger.NameIndexInjective | libs/gpm/statedb/state_database.cpp:151-176 | two names never share an index |
| Ledger.NameIndexPermanent | libs/gpm/statedb/state_database.cpp:179-210 | once a name has an index, every longer well-formed log gives it the same one |
| Ledger.IndexedTransfer | libs/gpm/statedb/state_database.cpp:688-711 | a key is in the transfer index if and only if a transfer touched it, and the indexed record holds its scanned balance |
| Ledger.BalanceIsScan | libs/gpm/statedb/state_database.cpp:212-250 | the balance query equals a full scan of the log and never throws on a well-formed log |
| Ledger.AccountsAreNames | libs/gpm/statedb/state_database.cpp:251-277 | every account in the transfer index is a registered name's position or -1 |
| Ledger.NoNeighbour | libs/gpm/statedb/state_database.cpp:929-934 | no account starts one byte after another, so the inclusive upper bound of an account's key range catches no stranger |
| Ledger.SetPublicKeyGrows | libs/gpm/statedb/state_database.cpp:179-210 | giving a key always succeeds, adds one well-formed record, and the name then has that key and an index |
| Ledger.TransferBalanceGrows | libs/gpm/statedb/state_database.cpp:251-277 | a transfer fails if and only if the sender holds less than the amount; otherwise one record with the right keys, balances and links is added |
| Ledger.IssueStockGrows | libs/gpm/statedb/state_database.cpp:283-306 | an issue fails if and only if the stock's own account was touched before |
| Ledger.ApplyTransferGrows | libs/gpm/statedb/state_database.cpp:369-425 | no branch of the transfer command throws, and what it leaves is a well-formed extension |
| Ledger.ApplyTrxGrows | libs/gpm/statedb/state_database.cpp:310-433 | no transaction throws on a well-formed log, and every log it leaves, also when rejected half-way, is a well-formed extension |
| Ledger.ApplyBlockGrows | libs/gpm/statedb/state_database.cpp:435-453 | the same for whole blocks |
| Ledger.EveryRunWellFormed | libs/gpm/statedb/state_database.cpp:179-453 | every log reachable by any mix of operations, transactions and blocks is well-formed |
| Rules.TransferAppliesExactly | libs/gpm/statedb/state_database.cpp:369-425 | a transfer is applied if and only if sender and stock have keys, the sender signed, the balance covers the amount, the recipient or the generator in its place is registered or an address, and a written recipient is not the sender; otherwise it leaves no trace |
| Rules.TransferMovesExactly | libs/gpm/statedb/state_database.cpp:414-424 | an applied transfer adds one record, after the definition of a recipient that was only an address: the amount leaves the sender and arrives at a different recipient; no other balance and no other key changes |
| Rules.SendsExactly | libs/gpm/statedb/state_database.cpp:251-277 | the transfer operation: every field of its record, and the balance of every key after it |
| Rules.RegisterExactly | libs/gpm/statedb/state_database.cpp:319-344 | a registration is applied if and only if the name has no key, its holder signed, or it is the key's address; it adds one record, the name gets this key and no other key, index or balance changes |
| Rules.IssueExactly | libs/gpm/statedb/state_database.cpp:345-368 | a stock is issued if and only if its name's key signed and its own account was never touched; the record credits 2^64-1 there and changes nothing else |
| Rules.OthersAreRejected | libs/gpm/statedb/state_database.cpp:426-431 | every other command is rejected without a trace |
| Rules.TrxAppliesExactly | libs/gpm/statedb/state_database.cpp:310-433 | a transaction is applied if and only if there is a chain of logs from its start record on, each left by the next command applied to the one before; its log is then the last of them |
| Rules.TrxStopsAtFirstRefusal | libs/gpm/statedb/state_database.cpp:310-433 | a transaction that is not applied ends with the log and status of the first command that is not, all before it being applied |
| Rules.UnknownCommandIsFatal | libs/gpm/statedb/state_database.cpp:426-431 | a transaction with a command nobody implements is never applied, wherever it stands |
| Rules.TrxsApplyExactly | libs/gpm/statedb/state_database.cpp:435-441 | a list of transactions applies if and only if each applies on what the one before it left |
| Rules.BlockAppliesExactly | libs/gpm/statedb/state_database.cpp:435-453 | a block is accepted if and only if all its transactions apply and its checksum is the hash of the log they leave; only its end record is then added |
| Rules.OtherChecksumRefused | libs/gpm/statedb/state_database.cpp:443-449 | any other checksum is refused, and the log is the one the transactions left |
| Conservation.Conserved | libs/gpm/statedb/state_database.cpp:251-306 | balances of a stock plus amounts sent by accounts to themselves add up to 2^64-1 once issued and to 0 before |
| Conservation.NeverExceedsSupply | libs/gpm/statedb/state_database.cpp:283-306 | the total never exceeds 2^64-1, is 0 before issue, and is exactly 2^64-1 after it if and only if nothing was sent by an account to itself |
| Conservation.TransferConserves | libs/gpm/statedb/state_database.cpp:251-277 | each transfer keeps the identity, and the recipient's 64-bit sum does not wrap when it differs from the sender |
| Conservation.TransferMovesAmount | libs/gpm/statedb/state_database.cpp:251-277 | for every key the balance after a transfer: down at the sender, up unwrapped at a different recipient, unchanged elsewhere |
| Conservation.ConservedOverRuns | libs/gpm/statedb/state_database.cpp:179-453 | the identity over every run from the empty log |
| Ownership.CommandSpends | libs/gpm/statedb/state_database.cpp:345-425 | a command lowers a balance only when the transaction is signed with the key of that account |
| Ownership.TrxSpends | libs/gpm/statedb/state_database.cpp:310-433 | a transaction, also one rejected half-way, lowers a balance only when signed with the key the account has at that moment |
| Ownership.BlockSpends | libs/gpm/statedb/state_database.cpp:435-453 | a block lowers a balance only when one of its transactions is so signed, whoever generated it |
| Ownership.CommandTakesName | libs/gpm/statedb/state_database.cpp:319-344 | a name that has a key gets another one only with that key's signature, or when the name is the new key's address |
| Ownership.TrxTakesName | libs/gpm/statedb/state_database.cpp:310-433 | a transaction never takes a key away, and gives a name another key only when at that moment it is signed with the name's key or the name is its new key's address |
| Ownership.BlockTakesName | libs/gpm/statedb/state_database.cpp:435-453 | the same for blocks: one of the transactions has that right |
| Ownership.CommandIssues | libs/gpm/statedb/state_database.cpp:345-368 | a command issues a stock only when the transaction is signed with the key of the stock's name |
| Ownership.TrxIssues | libs/gpm/statedb/state_database.cpp:310-433 | a transaction issues a stock only when signed with the key the stock's name has at that moment |
| Ownership.BlockIssues | libs/gpm/statedb/state_database.cpp:435-453 | a block issues a stock only with a transaction that is so signed |
| History.WalkIsScan | libs/gpm/statedb/state_database.cpp:722-786 | the walk along `previous` of any registered account, also one named "", equals a scan of the log that is given up at a record whose parties read the same |
| History.WalkCompleteExactly | libs/gpm/statedb/state_database.cpp:761-786 | the walk visits every transfer touching the account if and only if any record that ends a walk is the oldest among them |
| History.WalkIsComplete | libs/gpm/statedb/state_database.cpp:761-786 | without self-transfers other than the issue, and for the account named "" without unregistered parties, it visits exactly the touching records, newest first |
| History.WalkBalances | libs/gpm/statedb/state_database.cpp:251-277 | consecutive records of a walk differ by the newer one's amount, and positions strictly decrease |
| History.NewestHoldsBalance | libs/gpm/statedb/state_database.cpp:278-282 | the walk starts at the record that holds the current balance |
| SelfTransfers.TransferKeepsTotalExactly | libs/gpm/statedb/state_database.cpp:251-277 | a successful transfer keeps the stock's total if and only if sender and recipient are different accounts or nothing is sent |
| SelfTransfers.CommandKeepsTotalExactly | libs/gpm/statedb/state_database.cpp:369-425 | an applied transfer command, with the generator in place of an empty recipient, keeps the total if and only if the recipient's name is not the sender's or nothing is sent |
| SelfTransfers.SelfTransferLosesSupply | libs/gpm/statedb/state_database.cpp:372-424 | a transaction that is applied, sending to its own generator, leaves the total of an issued stock at 2^64-2 |
| SelfTransfers.SelfTransferEndsWalk | libs/gpm/statedb/state_database.cpp:763-767 | the log it leaves has two transfers, of which the walk lists one |
| SelfTransfers.UnnamedPartyEndsWalk | libs/gpm/statedb/state_database.cpp:761-767 | a log without self-transfers in which the walk of the account named "" lists one of two transfers |
| StateDatabases.StateDatabase.Over | libs/gpm/statedb/state_database.cpp:10-13 | a new layer shows exactly what its base shows |
| StateDatabases.StateDatabase.Read | libs/gpm/statedb/state_database.cpp:461-483 | a read at any layer depth is a read of the whole concatenated log |
| StateDatabases.StateDatabase.GetRecord | libs/gpm/statedb/state_database.cpp:24-45 | at a record's start, whichever layer holds it, that record; past the end or at -1 nothing; anywhere else what the bytes of the layer that holds the position decode to |
| StateDatabases.StateDatabase.GetLastNameEditIndex | libs/gpm/statedb/state_database.cpp:659-687 | the layered lookup equals the index of the whole log |
| StateDatabases.StateDatabase.GetLastTransferIndex | libs/gpm/statedb/state_database.cpp:688-711 | the layered lookup equals the index of the whole log |
| StateDatabases.StateDatabase.GetPublicKey | libs/gpm/statedb/state_database.cpp:76-125 | the key query over layers is the key query of the log |
| StateDatabases.StateDatabase.GetNameForIndex | libs/gpm/statedb/state_database.cpp:127-150 | the recursive lookup over layers is that of the log, for every record and for -1 |
| StateDatabases.StateDatabase.GetNameIndex | libs/gpm/statedb/state_database.cpp:151-176 | the name query over layers is that of the log |
| StateDatabases.StateDatabase.GetBalance | libs/gpm/statedb/state_database.cpp:212-250 | the balance query over layers is that of the log |
| StateDatabases.StateDatabase.AppendRecord | libs/gpm/statedb/state_database.cpp:47-57 | the layer's log grows by exactly this record, bytes and indexes included |
| StateDatabases.StateDatabase.Append | libs/gpm/statedb/state_database.cpp:58-74 | a layer takes over the records and indexes of the layer above it |
| StateDatabases.StateDatabase.SetPublicKey | libs/gpm/statedb/state_database.cpp:179-210 | refines the key operation on the log |
| StateDatabases.StateDatabase.TransferBalance | libs/gpm/statedb/state_database.cpp:251-277 | refines the transfer operation on the log |
| StateDatabases.StateDatabase.IssueStock | libs/gpm/statedb/state_database.cpp:283-306 | refines the issue operation on the log |
| StateDatabases.StateDatabase.ApplyTrx | libs/gpm/statedb/state_database.cpp:310-433 | refines the transaction on the log, including what a rejected one leaves behind |
| StateDatabases.StateDatabase.ApplyBlock | libs/gpm/statedb/state_database.cpp:435-453 | refines the block on the log; when the block is accepted the file's cursor is at its end, as `commit` needs |
| StateDatabases.StateDatabase.CalculateStateHash | libs/gpm/statedb/state_database.cpp:490-514 | the hash of the hashes of all megabytes of the whole log, and the cursor left at the end of the file |
| StateDatabases.StateDatabase.Commit | libs/gpm/statedb/state_database.cpp:517-525 | the base shows the old view of this layer, whose own view stays; at the bottom the file holds exactly the log if and only if the cursor was at its end or nothing was to be written |
| StateDatabases.StateDatabase.CommitToFile | libs/gpm/statedb/state_database.cpp:633-656 | the bytes are written at the cursor; file and stored indexes show the log if and only if the cursor was at the end or nothing was to be written |
| StateDatabases.StateDatabase.Abort | libs/gpm/statedb/state_database.cpp:526-531 | the layer shows its base again |
| StateDatabases.StateDatabase.Rebase | libs/gpm/statedb/state_database.hpp:232 | the layer still shows its log's bytes if and only if the new base shows the old one's; a base with the same log changes nothing |
| StateDatabases.StateDatabase.KeptOnBase | libs/gpm/statedb/state_database.cpp:14-74 | a layer depends on the log of its base only |
| StateDatabases.StateDatabase.FindLastBlock | libs/gpm/statedb/state_database.cpp:533-554 | the backward scan ends and gives the block of the last end-of-block record across all layers, or the default block |
| StateDatabases.StateDatabase.NameCount | libs/gpm/statedb/state_database.cpp:897-923 | counting layer by layer gives the number of distinct names of the log |
| StateDatabases.StateDatabase.GetAccountContentsIdx | libs/gpm/statedb/state_database.cpp:925-942 | the stocks an account was ever touched in, through all layers, and stock 0 when the key one byte further is in a local index |
| StateDatabases.StateDatabase.ContentsOfName | libs/gpm/statedb/state_database.cpp:943-957 | for a registered name that one key never exists, so the query gives exactly its stocks |
| TransferCursors.TransferCursor.Previous | libs/gpm/statedb/state_database.cpp:761-786 | the iterator moves as the walk does, strictly backwards |
| TransferCursors.TransactionLog | libs/gpm/node/node.cpp:867-883 | the listing loop ends and visits exactly the walk |
| TrxFile.FileTransaction.Read | libs/gpm/statedb/trx_file.cpp:132-175 | a paged read is a read of the flat view |
| TrxFile.FileTransaction.Write | libs/gpm/statedb/trx_file.cpp:177-193 | a paged write started at or before the end is a flat write, and nothing below changes |
| TrxFile.FileTransaction.Commit | libs/gpm/statedb/trx_file.cpp:201-223 | the base becomes the view and keeps its cursor, for caches over caches of any depth |
| TrxFile.RunAndCommit | libs/gpm/statedb/trx_file.cpp:112-223 | any sequence of seeks, reads and writes through the cache, then commit, leaves what the same sequence leaves on a flat file |
| TrxFile.WriteEach | libs/gpm/statedb/trx_file.cpp:46-80 | the flat write all of this is proved against: what was written is read back, every other byte stays, and the end moves only when it is passed |
| TrxFile.ReadEach | libs/gpm/statedb/trx_file.cpp:46-80 | the flat read: the bytes from the position on, as far as the file goes |
| BlockChain.CalculateHashTarget | libs/gpm/block_chain/block.cpp:70-109 | the window loop, byte packing and overflow branch compute the target function |
| BlockChain.WindowIsLastHashes | libs/gpm/block_chain/block.cpp:78-94 | on a linked chain the window is the last min(i+1, 30) block hashes |
| BlockChain.TargetOnLinkedChain | libs/gpm/block_chain/block.cpp:70-109 | the target at i >= 1 is min(max hash, floor(M*257/256)) for the largest hash M of the window |
| BlockChain.TargetDependsOnPrefix | libs/gpm/block_chain/block.cpp:70-109 | extending the chain never changes a target |
| BlockChain.TargetTestIsMaxHashTest | libs/gpm/block_chain/block.cpp:150-154 | `validate`'s target test accepts a block if and only if its hash is at most the max hash |
| BlockChain.TargetEasesSlowly | libs/gpm/block_chain/block.cpp:70-109 | if each block is mined at or below the preceding target, the target eases by at most 1/256 a block |
| BlockChain.Validate | libs/gpm/block_chain/block.cpp:120-159 | the loop accepts exactly linked chains whose blocks pass the time and target tests |
| BlockChain.ValidateIncremental | libs/gpm/block_chain/block.cpp:120-159 | validity can be checked one block at a time against the predecessor's hash |
| BlockChain.ValidatePrefixClosed | libs/gpm/block_chain/block.cpp:120-159 | every prefix of a valid chain is valid |
| BlockChain.HeadHashFixesChain | libs/gpm/block_chain/block.cpp:134-157 | two valid chains with one head hash are identical, lengths included, or contain a hash collision or zero hash |
| BlockChain.CalculateDifficulty | libs/gpm/block_chain/block.cpp:45-58 | the loop computes the sum of the blocks' terms |
| BlockChain.NumBitsExact | libs/gpm/math/bigint.hpp:31 | the bit count k of a positive number is the one with 2^(k-1) <= n < 2^k |
| BlockChain.TermExactly | libs/gpm/block_chain/block.cpp:52-55 | a block adds 160-k to the difficulty if and only if its target lies between 2^(k-1) and 2^k, or is 0 for k = 0 |
| BlockChain.AppendedDifficulty | libs/gpm/block_chain/block.cpp:45-58 | what one more block adds to the difficulty of a chain, in terms of its target only |
| BlockChain.FirstDifficulties | libs/gpm/block_chain/block.cpp:45-58 | the empty chain has difficulty 1 and every chain of one block 17 |
| BlockChain.DifficultyOfPrefix | libs/gpm/block_chain/block.cpp:45-58 | later blocks change no earlier term |
| BlockChain.DifficultyGrowth | libs/gpm/block_chain/block.cpp:45-58 | each appended block adds between 16 and 160 |
| BlockChain.Generate | libs/gpm/block_chain/block.cpp:177-189 | only the nonce changes, all nonces tried before are above the target, success means strictly below it |
| NodeRuns.AppendAgrees | libs/gpm/node/node.cpp:674-738 | appending keeps node and ledger in agreement; a block not accepted changes nothing |
| NodeRuns.ReplaceAgrees | libs/gpm/node/node.cpp:739-791 | replacing the head keeps agreement; a block not accepted leaves chain, files and views unchanged |
| NodeRuns.AddBlockAgrees | libs/gpm/node/node.cpp:648-798 | after every `add_block` the state database shows the replay of all blocks but the head, the head layer that of the whole chain, and the two files exactly that prefix |
| NodeRuns.GenesisAgrees | libs/gpm/node/node.cpp:624-634 | the first block establishes agreement if and only if its checksum is that of the empty log |
| NodeRuns.EveryRunAgrees | libs/gpm/node/node.cpp:568-798 | agreement over every run of deliveries, submissions and candidate building; every held chain of two or more blocks is valid |
| NodeRules.ChecksumsOverRuns | libs/gpm/node/node.cpp:682-690 | at every moment of a run each held block was played on the log of the blocks below it, and its recorded checksum is the hash of that log with its transactions, just before its end record |
| NodeRules.LogsEndWithTheirBlocks | libs/gpm/node/node.cpp:693-715 | in agreement the last end record of the head layer names the chain's head, and that of the file on disk the last block of the chain file |
| NodeRules.AppendExactly | libs/gpm/node/node.cpp:674-738 | a block on the head is taken if and only if the chain with it validates, its transactions are pending, all apply on the head's log and leave its checksum; the whole new state, and no change at all otherwise |
| NodeRules.ReplaceExactly | libs/gpm/node/node.cpp:739-791 | a sibling is taken if and only if its hash is lower, the chain with it validates, its transactions are pending or the head's, all apply on the log below the head and leave its checksum; the new state, and only the store touched otherwise |
| NodeRules.AddBlockExactly | libs/gpm/node/node.cpp:648-798 | the result code of a delivered block: 0, -1, 1 or -3, each under its exact condition, and what changed |
| NodeRules.OtherChecksumGetsMinusThree | libs/gpm/node/node.cpp:689-736 | a delivered block whose transactions are there and apply but leave a log with another hash gets -3 |
| NodeRules.FullBlockExactly | libs/gpm/node/node.cpp:591-645 | a full block leaves its unknown transactions as pending and its state under its hash, changes no other entry, and is then the first block of an empty chain or a delivered block |
| NodeRules.GenesisExactly | libs/gpm/node/node.cpp:624-634 | a first block leaves its end record alone in the log, or nothing at all when its checksum is not that of the empty log |
| NodeRules.MinedGenesisExactly | libs/gpm/node/node.cpp:194-215 | the log, block state and store after mining a first block, and the answer the node then gives for it |
| NodeRules.AddTransactionExactly | libs/gpm/node/node.cpp:568-589 | a transaction in none of the three groups is stored as pending and no other entry or field changes; a known one gets -1 and changes nothing |
| NodeRules.SubmittedIsConsidered | libs/gpm/node/node.cpp:225-259 | after a submission every order a candidate may be built from lists the transaction once, and the candidate takes it if and only if it applies on top of those taken before |
| NodeRuns.NextProgress | libs/gpm/node/node.cpp:674-798 | each step extends the chain by one, swaps only the last block for a sibling of strictly lower hash, or keeps it |
| NodeRuns.Finality | libs/gpm/node/node.cpp:674-798 | over every run blocks below the head never change, and replacements at one height are paid for by the head's hash, so they are finitely many |
| NodeRuns.NextKeepsStore | libs/gpm/node/node.cpp:568-798 | every handler, whatever its outcome, keeps each stored transaction in exactly one group |
| NodeRuns.StoreOverRuns | libs/gpm/node/node.cpp:123-157 | no stored transaction is ever lost, over every run |
| StoreMoves.MoveListAt | libs/gpm/node/node.cpp:139-157 | what moving a list leaves under every key |
| StoreMoves.MoveGroupAt | libs/gpm/node/node.cpp:123-138 | what moving a group leaves under every key |
| StoreMoves.AppendMovesExactly | libs/gpm/node/node.cpp:690-691 | after an append the head group is exactly the block's list and the old head group is applied |
| StoreMoves.ReplaceMovesExactly | libs/gpm/node/node.cpp:752-763 | after a replacement the head group is the union of the old head group and the new list |
| StoreMoves.HeadGroupAfterReplace | libs/gpm/node/node.cpp:746-763 | so it is the new head's list if and only if the old list is part of it |
| StoreMoves.RejectedReplaceStore | libs/gpm/node/node.cpp:748-788 | a rejected sibling leaves the store alone if and only if it was refused before any move or none of its list was pending |
| StoreMoves.NeverAppliedAgain | libs/gpm/node/node.cpp:682-691 | after any run no accepted block lists an applied transaction |
| StoreMoves.OrphanIsLost | libs/gpm/node/node.cpp:752-784 | a transaction of a replaced head that the new head omits ends as applied although no block has it, and is never included again |
| Generation.SelectReplays | libs/gpm/node/node.cpp:242-259 | committing one layer for each successful transaction gives the log that running the chosen ones in a single layer gives; failing ones leave no trace |
| Generation.SelectSnoc | libs/gpm/node/node.cpp:245-259 | a transaction is chosen if and only if it applies on top of those chosen before it |
| Generation.GeneratedBlockAccepted | libs/gpm/node/node.cpp:217-287 | a block mined from a candidate never fails its state check: it is accepted if and only if the clock and the chain rules take it |
| NodeRules.CandidateExactly | libs/gpm/node/node.cpp:217-287 | a candidate follows the head, is dated 15 seconds ahead, and its state holds the height it will have, the generator, transactions that run on the head's log and the hash of what they leave; nothing else of the node changes |
| NodeRules.ChosenOldestFirst | libs/gpm/node/node.cpp:239-259 | the transactions of a candidate are taken oldest first |
| NodeRules.CandidateInTime | libs/gpm/node/node.cpp:282 | as long as the clock does not wrap a candidate passes the clock test whenever it is delivered later |
| NodeRules.MinedBlockStandsAtIndex | libs/gpm/node/node.cpp:222-224 | when the mined block is accepted it stands in the chain at the index its state gives |
| Generation.WorkKeepsOpen | libs/gpm/node/node.cpp:568-589 | transactions that arrive while the block is mined, and the candidates rebuilt for them, do not get in its way unless another candidate's different block state has its hash |
| Generation.MinedGenesisAgrees | libs/gpm/node/node.cpp:194-215 | a node that mines its own first block agrees with its ledger if and only if mining succeeded |
| Siblings.NextSibling | libs/gpm/node/node.cpp:739-791 | a further sibling takes over exactly when its hash is lower, and finds its transactions whichever siblings were head before |
| Siblings.LowestSiblingWins | libs/gpm/node/node.cpp:674-791 | siblings in any order, with repeats: the lowest hash ends as head with the ledger it would have had alone |
| Siblings.SiblingOrderIndependence | libs/gpm/node/node.cpp:674-791 | two deliveries of one set of siblings give the same chain, ledger views and files, or two siblings share a hash |
| Siblings.StoreDependsOnOrder | libs/gpm/node/node.cpp:747-763 | the transaction store is not order independent: for any two such siblings, where a transaction only the higher one lists ends up |
| CatchUp.OneReply | libs/gpm/node/server.cpp:43-50 | one reply of an honest peer takes the follower exactly one block further |
| CatchUp.CatchUpConverges | libs/gpm/node/server.cpp:5-12 | a follower with any proper prefix ends with the peer's chain, ledger views and files after one reply for each missing block |
| CatchUp.FullBlockProgress | libs/gpm/node/server.cpp:43-50 | every accepted reply lengthens the chain or lowers the head's hash, so the conversation ends with any peer |
| CatchUp.EmptyReplyIsHarmless | libs/gpm/node/node.cpp:468-471 | the empty reply never changes a chain, a ledger or a store |
| CatchUp.CaughtUpStays | libs/gpm/node/server.cpp:5-12 | a node that has caught up asks once and stays as it is |
| Serving.ReceivedServesExactly | libs/gpm/node/node.cpp:621 | after a full block arrives, accepted or not, a held block is still served if and only if its state hash is another one, or the new state has the applied generator, checksum and transactions |
| Serving.RefusedReplyBreaksServing | libs/gpm/node/node.cpp:591-645 | for every served block there is a reply that is refused and stops the node from serving it |
| Serving.NextServesExactly | libs/gpm/node/node.cpp:568-798 | for every step, a node stays able to serve its whole chain if and only if the step is careful, a condition on the state before it |
| Serving.ServingOverRunsExactly | libs/gpm/node/node.cpp:454-484 | a node can serve every block it holds, with the transactions its ledger applied, at every moment of a run if and only if every step is careful |
| Serving.FreshNodeCatchesUp | libs/gpm/node/server.cpp:43-68 | a fresh node that asks such a node ends with the same chain and ledger |
| Serving.GenesisServes | libs/gpm/node/node.cpp:624-634 | a first block without transactions and with the empty log's checksum starts such a node |
| Serving.FirstReplyExactly | libs/gpm/node/node.cpp:624-634 | a fresh node always takes over an agreeing peer's first block, and ends with its ledger if and only if the peer applied no transactions with it |
| Serving.ReplacedFirstIsNotFollowed | libs/gpm/node/node.cpp:739-791 | a first block replaced by one with transactions leaves every fresh node with another ledger |
| NodeRules.AnswerExactly | libs/gpm/node/node.cpp:468-508 | which requests are answered, and with what: the block at that height, its state, the height of the head and the listed transactions in order, the empty block, or an error |
| NodeRules.FindTrxExactly | libs/gpm/node/node.cpp:454-466 | a transaction is found in the first of four groups that has it, and not found only when none has |
| Replays.NeverInTwoBlocks | libs/gpm/node/node.cpp:674-791 | over every run no two blocks of the held chain apply the same transaction |
| Replays.OnceOverRunsExactly | libs/gpm/node/node.cpp:106-122 | at every moment of a run each transaction is applied at most once if and only if no accepted block lists one twice |
| Replays.TwiceListedIsAppliedTwice | libs/gpm/node/node.cpp:682-690 | a block whose list names a pending transaction twice is accepted and applies it twice |
| Witnesses.StoreDependsOnOrderHere | libs/gpm/node/node.cpp:747-763 | two siblings on a concrete node for which the order of arrival decides where a transaction ends up |
| Witnesses.OrphanHere | libs/gpm/node/node.cpp:752-784 | a concrete run in which a transaction of a replaced head is lost |
| Witnesses.OtherFirstHere | libs/gpm/node/node.cpp:739-791 | a concrete first block that is replaced by one with a transaction, and a fresh node that does not get the ledger |
| Witnesses.RefusedReplyHere | libs/gpm/node/node.cpp:621 | a concrete refused reply after which a node cannot serve its chain |
| Witnesses.TwiceHere | libs/gpm/node/node.cpp:682-690 | a concrete block that applies one transaction twice |
| Nodes.Node.constructor | libs/gpm/node/node.cpp:385-424 | a node opened on an empty directory is the fresh state |
| Nodes.Node.MoveAll | libs/gpm/node/node.cpp:123-138 | the search-and-move loop ends and moves exactly the group |
| Nodes.Node.MoveTransactions | libs/gpm/node/node.cpp:139-157 | the loop moves exactly those of the list that are in the group |
| Nodes.Node.FetchTransactions | libs/gpm/node/node.cpp:106-122 | all transactions of the list, or none |
| Nodes.Node.Promote | libs/gpm/node/node.cpp:693-701 | commit of the state database, commit of the old head, rebase: the new head keeps its view and the state database gets the old head's |
| Nodes.Node.AppendBlock | libs/gpm/node/node.cpp:674-738 | the layers, files and store end exactly as the state machine's append says, also when it is undone |
| Nodes.Node.ReplaceHead | libs/gpm/node/node.cpp:739-791 | the same for replacing the head |
| Nodes.Node.AddBlock | libs/gpm/node/node.cpp:648-798 | refines the state machine's `add_block`, result code included |
| Nodes.Node.AddFullBlock | libs/gpm/node/node.cpp:591-645 | refines the state machine's `add_full_block` |
| Nodes.Node.AddTransaction | libs/gpm/node/node.cpp:568-589 | refines the state machine's `add_transaction` |
| Nodes.Node.MineFirst | libs/gpm/node/node.cpp:193-215 | refines mining and installing a first block |
| Nodes.Node.PendingSorted | libs/gpm/node/node.cpp:227-240 | every pending transaction once, oldest first |
| Nodes.Node.BuildCandidate | libs/gpm/node/node.cpp:217-287 | refines the state machine's candidate, for an order that lists exactly the pending transactions by time |
| Nodes.Node.GetFullBlock | libs/gpm/node/node.cpp:468-484 | the block with its state and transactions, the empty block beyond the head, or an error |
| Nodes.Connection.AddFullBlock | libs/gpm/node/server.cpp:43-50 | the next request is sent exactly when the block was accepted and is not the peer's head |
| Nodes.Connection.GetFullBlock | libs/gpm/node/server.cpp:59-68 | a reply exactly when the request can be answered |
| Blowfish.NetworkUndone | libs/gpm/crypto/blowfish.cpp:345-380 | sixteen rounds with the subkeys reversed undo sixteen rounds, for any round function |
| Blowfish.BlockRoundTrip | libs/gpm/crypto/blowfish.cpp:345-380 | block decrypt undoes block encrypt for every P and S table |
| Blowfish.BlockBytesRoundTrip | libs/gpm/crypto/blowfish.cpp:383-435 | packing a block into eight bytes and back |
| Blowfish.BytesBlockRoundTrip | libs/gpm/crypto/blowfish.cpp:383-435 | unpacking eight bytes into a block and back |
| Blowfish.BufferRoundTrip | libs/gpm/crypto/blowfish.cpp:439-523 | in each of the three modes and for every chain value, decrypting a buffer undoes encrypting it |
| Blowfish.RepeatedKeySameSchedule | libs/gpm/crypto/blowfish.cpp:313-334 | a key and its repetition give the same subkeys |
| CipherLaws.XorBits | libs/gpm/crypto/blowfish.cpp:345-380 | each bit of the modelled exclusive or is the sum of the two bits modulo 2 |
| CipherLaws.RoundFunctionOnBytes | libs/gpm/crypto/blowfish.hpp:182-185 | the round function on a word's four bytes, highest first: two boxes added, the third mixed in, the fourth added, modulo 2^32 |
| CipherLaws.RoundMixes | libs/gpm/crypto/blowfish.cpp:345-361 | one round moves the left half to the right and mixes the right half with F of the left one and the subkey, bit by bit |
| CipherLaws.EncryptedBlocks | libs/gpm/crypto/blowfish.cpp:439-478 | block i of an encrypted buffer, in each mode, from plain block i and cipher block i-1 or the chain |
| CipherLaws.DecryptedBlocks | libs/gpm/crypto/blowfish.cpp:482-523 | block i of a decrypted buffer from cipher blocks i and i-1 only |
| CipherLaws.KeyedSubkeyBytes | libs/gpm/crypto/blowfish.cpp:313-334 | subkey i is mixed with key bytes 4i to 4i+3, counted modulo the key's length, highest first |
| CipherLaws.ScheduleIsReflection | libs/gpm/crypto/blowfish.cpp:335-341 | the nested loops of the schedule are one pass of 521 steps over the flat list of 1042 words, each step enciphering the running block under the tables so far |
| CipherLaws.OverwrittenWords | libs/gpm/crypto/blowfish.cpp:335-341 | step n of that pass writes words 2n and 2n+1 of the list and no other |
| Blowfish.Cipher.Start | libs/gpm/crypto/blowfish.cpp:295-342 | the key load and the evolving reflection of the tables compute the schedule function |
| Blowfish.Cipher.EncryptBlock | libs/gpm/crypto/blowfish.cpp:345-361 | the unrolled rounds compute the network |
| Blowfish.Cipher.DecryptBlock | libs/gpm/crypto/blowfish.cpp:364-380 | the unrolled rounds compute the reversed network |
| Blowfish.Cipher.Encrypt | libs/gpm/crypto/blowfish.cpp:439-478 | the loops over a buffer, in place or into another one, compute the mode; a bad length is refused |
| Blowfish.Cipher.Decrypt | libs/gpm/crypto/blowfish.cpp:482-523 | the same for decrypting |
| Blowfish.RoundTripInPlace | libs/gpm/crypto/blowfish.cpp:439-523 | encrypting and then decrypting a buffer in place restores it |

## Left out

- User interface, sockets, message framing, mining threads, the dump output, the wall clock (a parameter) and restart (`synchronize_state`).
- SHA-1, signatures, addresses and OpenSSL wrappers are parameters; the numeric P and S tables of Blowfish are a parameter of the `Cipher` constructor.
- `query_names`, which truncates before sorting, and the sorting of `get_account_contents`; date limits and the time of a transfer in the history.
- Commands that the source does not implement (bids, delegated transfers) are rejected as `Other`.
- The old, unbuilt copy of the state database beside the block chain code.
- Buffers that the source fills are returned as sequences, the Blowfish tables and the node's maps are value fields; positions are unbounded with an explicit -1 (`Nowhere`), and `Encodable` says when a log stays below 2^64-1 and its records pack.
- Files do not fail; a stdio error in the middle of a write is not modelled. Record numbers are read on a little-endian host.
- One class stands for `state_database` and `state_database_transaction`; the layer without a base is the one on disk.
- TrxFile.FileTransaction.Write: a write that starts beyond the end is not covered, because the pages it skips exist in no layer.
- StateDatabases.StateDatabase.GetNameForIndex: asked for starts of records or -1; an update that points forward, on which the source would loop, is an error of the function and occurs in no well-formed log.
- StateDatabases.StateDatabase.ApplyBlock: requires that the log it may leave can be written (`Encodable`); the same holds for the other operations that append, and for the node's handlers through `Fits`, `BlockFits` and `SelectFits`.
- StateDatabases.StateDatabase.GetAccountContentsIdx: stated for indexes below 2^64-2; for -1, the index of an unknown name, the source's key range wraps around.
- StateDatabases.StateDatabase.CommitToFile: a cursor beyond the end of the file, which leaves a hole, is not covered.
- StateDatabases.StateDatabase.Commit: the same.
- TransferCursors.TransactionLog: gives the positions listed; the date limits and the copying of the fields of each record into the answer are left out.
- TrxFile.RunAndCommit: the same limit as for `Write`.
- Nodes.Node.AddTransaction: the building of a new candidate that follows is the separate step `BuildCandidate`; the same holds for the restart of generation after an accepted block.
- Nodes.Node.MoveAll: which transaction of a group the search finds first is left open.
- NodeRuns.EveryRunAgrees: covers runs without a restart.
- Siblings.SiblingOrderIndependence: the transaction store is excluded, for the reason `StoreDependsOnOrder` gives.
