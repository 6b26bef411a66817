# solana_leader_schedule in Dafny

The source program prints the leader schedule of the next epoch of a Solana
cluster. It reads the RPC endpoint from the command line, fetches the
current epoch and every stake account, and adds the active delegated stake
of each vote account into a map. It then builds a 32-byte seed from the
epoch, sorts the (vote account, stake) pairs into a canonical order and
hands both to `LeaderSchedule::new`.

This project models the deterministic parts of that program and proves
what they promise:

- `Cli` (`common.dfy`, `cli.dfy`): `get_url`, the alias table for endpoints,
  and `parse_args`, the `while let` loop over the arguments. Each
  `error_exit` / `process::exit` is an `ArgError` value.
- `Aggregation` (`aggregation.dfy`): the loop of `main` over the decoded
  stake accounts. It skips zero-length accounts and non-`Stake` states,
  drops delegations that are activated in the current epoch or later or
  deactivated before it, and adds the rest into a map keyed by vote
  account. The method is proved equal to a reference tally, defined per key
  as the sum of the counted delegations. About that tally the project
  proves key presence, the filter boundaries, that ignored accounts have no
  effect at any position, and independence from account order.
- `StakeOrder` (`stake_order.dfy`): the comparator of `sort_stakes`
  (descending stake, then descending public key in lexicographic byte
  order), an in-place sort and an in-place `Vec::dedup` on an `array`. The
  result is proved strictly sorted, to hold exactly the distinct input
  elements, and to equal a reference function `Canonical`. `Canonical` is
  shown to be unchanged by permuting its input and to be idempotent.
- `Schedule` (`schedule.dfy`): the seed (`epoch.to_le_bytes()` in bytes
  0..8, zeros after), with a little-endian decoder, both round trips and
  injectivity. It also models the map-to-vector collection in arbitrary
  iteration order, the inputs `leader_schedule` passes on, and the data flow
  of `main`: the tally is filtered for `current_epoch` while the schedule
  is built for `current_epoch + 1`.

Three behaviours of the code that the model keeps:

- An active delegation with stake 0 still creates its key with value 0,
  because of `or_insert(0)` (`src/main.rs:113`). So a key is present exactly
  when some counted delegation names it, not when its total is positive
  (`Aggregation.ZeroStakeKeyPresent`).
- `sort_stakes` runs `dedup` although no duplicates can reach it.
  `Schedule.EnumerationSortsCanonically` proves it removes nothing there.
- The empty-stake-set failure belongs to `LeaderSchedule::new`, which is
  foreign code. No check for it exists in `src/main.rs`.

## Model

| member | source | states |
|---|---|---|
| `Cli.Message` | src/main.rs:41-49 | each argument error is reported on a line starting with "ERROR: " that is longer than the flag or argument it names |
| `Cli.GetUrl` | src/main.rs:56-68 | the result is one of the four fixed endpoints, or else the given string, which is then not an alias |
| `Cli.GetUrlDefault` | src/main.rs:58-59 | no URL gives the mainnet endpoint |
| `Cli.GetUrlAliases` | src/main.rs:60-64 | "l"/"localhost", "d"/"devnet", "t"/"testnet", "m"/"mainnet" give the localhost, devnet, testnet and mainnet endpoints |
| `Cli.GetUrlPassThrough` | src/main.rs:60-65 | a string comes back unchanged exactly when it is not an alias |
| `Cli.GetUrlIdempotent` | src/main.rs:56-68 | feeding the result back through `get_url` gives the same URL |
| `Cli.ParseOutcome` | src/main.rs:29-54 | the outcome of parsing: a duplicate or missing-value error names a `-u`/`--url` flag of the list, an unexpected-argument error names a non-flag of the list, and a success holds a fixed endpoint or a string of the list |
| `Cli.ParseArgs` | src/main.rs:29-54 | the argument loop returns exactly the closed-form outcome: success only for no arguments or one flag with its value, otherwise the first error the loop meets |
| `Cli.ParseEmpty` | src/main.rs:35-53 | an empty argument list selects the mainnet endpoint |
| `Cli.ParseSingleUrl` | src/main.rs:39-47 | `-u X` and `--url X` select `get_url(Some(X))` |
| `Cli.ParseDuplicate` | src/main.rs:40-43 | a second `-u`/`--url` is a duplicate error whatever follows it, so this check wins over a missing value |
| `Cli.ParseMissingValue` | src/main.rs:44-45 | a flag with no following value is an error naming the flag |
| `Cli.ParseUnexpected` | src/main.rs:49 | any other argument, first or after a complete `-u X`, is an unexpected-argument error naming it |
| `Cli.ParseSucceedsIff` | src/main.rs:37-53 | parsing succeeds if and only if the list is empty or is one flag with a value, and the URL is then `get_url` of that value |
| `Aggregation.Active` | src/main.rs:103-111 | a delegation passes both filters exactly when `activation_epoch < current_epoch <= deactivation_epoch`, so nothing passes in epoch 0 |
| `Aggregation.Counted` | src/main.rs:95-111 | only a decoded `Stake` state can add stake: a zero-length, undecodable or non-`Stake` account never does |
| `Aggregation.Tallied` | src/main.rs:92-117 | the reference tally, one key per vote account named by a counted delegation with the sum of their stakes; no accounts give the empty map |
| `Aggregation.AggregateStakes` | src/main.rs:90-117 | the loop fails on the first undecodable account, naming it, and otherwise returns the reference tally |
| `Aggregation.TalliedSnoc` | src/main.rs:113 | one more account changes the tally exactly as `entry(voter).or_insert(0) += stake` does when it is counted, and not at all otherwise |
| `Aggregation.TalliedKeys` | src/main.rs:92-117 | a vote account is a key if and only if some counted delegation names it; its value is the sum of those delegations' stakes, and any other vote account has total 0 |
| `Aggregation.IgnoredAccount` | src/main.rs:95-115 | an account that decodes but is not counted leaves the outcome unchanged wherever it stands |
| `Aggregation.ZeroLengthIgnored` | src/main.rs:95-97 | a zero-length account never affects the outcome |
| `Aggregation.NonStakeIgnored` | src/main.rs:99-115 | a state other than `Stake` never affects the outcome |
| `Aggregation.LateActivationIgnored` | src/main.rs:103-107 | a delegation with `activation_epoch >= current_epoch`, including `u64::MAX` and equality, contributes nothing |
| `Aggregation.EarlyDeactivationIgnored` | src/main.rs:108-111 | a delegation with `deactivation_epoch < current_epoch` contributes nothing |
| `Aggregation.DeactivatingThisEpochCounted` | src/main.rs:105-113 | activation before and deactivation equal to the current epoch is counted: the key is present and receives the stake |
| `Aggregation.ZeroStakeKeyPresent` | src/main.rs:102-113 | an active delegation of stake 0 still creates its vote account's key (`or_insert(0)`); on its own it gives that key the value 0 |
| `Aggregation.AggregateOrderIndependent` | src/main.rs:92-117 | for any reordering of the accounts, the outcome fails for both orders or for neither, and the tallies are equal |
| `Aggregation.TwoDelegationsExample` | src/main.rs:102-113 | two active delegations of 100 and 250 to one vote account give the single key with 350 |
| `StakeOrder.KeyLess` | src/main.rs:134 | lexicographic byte comparison of public keys is strict: no key is less than itself |
| `StakeOrder.KeyLessTotal` | src/main.rs:134 | public-key comparison orders any two different keys one way or the other |
| `StakeOrder.KeyLessTransitive` | src/main.rs:134 | public-key comparison is transitive |
| `StakeOrder.Before` | src/main.rs:132-139 | the comparator puts `x` first only when `x` differs from `y` and has at least `y`'s stake: larger stake first, equal stakes by larger key |
| `StakeOrder.BeforeTotal` | src/main.rs:132-139 | the comparator ties only on equal pairs |
| `StakeOrder.BeforeTransitive` | src/main.rs:132-139 | the comparator is transitive |
| `StakeOrder.SortByStakeThenKey` | src/main.rs:132-139 | the array ends up ordered pair by pair (larger stake first, equal stakes by larger key) and is a permutation of the input |
| `StakeOrder.Dedup` | src/main.rs:142 | `Vec::dedup` on values: never longer than its input, and a non-empty input keeps its last element |
| `StakeOrder.DedupInPlace` | src/main.rs:141-142 | the first `n` cells become the input with consecutive repeats removed |
| `StakeOrder.DedupElements` | src/main.rs:141-142 | dedup keeps exactly the set of elements of its input |
| `StakeOrder.DedupNoAdjacentEqual` | src/main.rs:141-142 | after dedup no two neighbours are equal, and a sorted input becomes strictly sorted |
| `StakeOrder.SortStakes` | src/main.rs:127-143 | the kept prefix is strictly sorted, holds exactly the distinct input elements, is no longer than the input and equals `Canonical` of the input |
| `StakeOrder.Canonical` | src/main.rs:127-143 | the reference result is strictly sorted and has exactly the elements of its input |
| `StakeOrder.StrictlySortedUnique` | src/main.rs:129-142 | two strictly sorted vectors with the same elements are equal, so the sort is deterministic |
| `StakeOrder.CanonicalPermutation` | src/main.rs:127-143 | any permutation of the input gives the same result |
| `StakeOrder.CanonicalIdempotent` | src/main.rs:127-143 | applying it twice equals applying it once |
| `StakeOrder.CanonicalLength` | src/main.rs:141-142 | the result is never longer than the input, and an input without repeats keeps its length |
| `Schedule.LeBytes` | src/main.rs:152 | little-endian encoding into `n` bytes gives exactly `n` bytes |
| `Schedule.FromLeBytes` | src/main.rs:152 | little-endian decoding of `b` gives a value below 256 to the power of the length of `b` |
| `Schedule.ToLeBytes` | src/main.rs:152 | the epoch's encoding has 8 bytes and decodes back to the epoch |
| `Schedule.LeBytesRoundTrip` | src/main.rs:152 | little-endian decoding undoes encoding for every value that fits |
| `Schedule.FromLeBytesRoundTrip` | src/main.rs:152 | little-endian encoding undoes decoding for every byte string |
| `Schedule.Seed` | src/main.rs:151-152 | the seed has 32 bytes: bytes 0..8 are `epoch.to_le_bytes()` and decode to the epoch, bytes 8..32 are zero |
| `Schedule.SeedInjective` | src/main.rs:151-152 | distinct epochs give distinct seeds |
| `Schedule.BuildSeed` | src/main.rs:151-152 | the zeroed array with the epoch bytes copied in is the seed |
| `Schedule.CollectEntries` | src/main.rs:153 | the collected vector lists every pair of the map exactly once, in an unspecified order |
| `Schedule.EnumerationElements` | src/main.rs:153 | such a vector holds exactly the map's pairs, each once |
| `Schedule.LeaderScheduleInputs` | src/main.rs:146-156 | `LeaderSchedule::new` gets the epoch's seed, `SLOTS_IN_EPOCH`, and a strictly sorted vector holding exactly the map's pairs, one per key |
| `Schedule.ScheduleInputsDeterministic` | src/main.rs:153-154 | that vector is determined by the map alone, whatever its iteration order |
| `Schedule.EnumerationSortsCanonically` | src/main.rs:153-154 | every iteration order sorts to the same vector, and dedup removes nothing from it |
| `Schedule.NextEpochSchedule` | src/main.rs:90-121 | the decode failure propagates; otherwise the stakes are tallied for `current_epoch`, and the schedule inputs are for `current_epoch + 1` with its seed, `SLOTS_IN_EPOCH` and the strictly sorted pairs of the tally, one per key |
| `Schedule.ActivatedThisEpochNotScheduled` | src/main.rs:103-121 | a delegation activated in the current epoch is active in the scheduled epoch yet leaves the tally unchanged |

## Left out

- RPC client construction, `get_epoch_info` and `get_program_accounts` (`src/main.rs:77-88`): network I/O. The current epoch and the account list are parameters.
- `StakeState::deserialize` (`src/main.rs:99-100`): Borsh decoding of a foreign type. Each account comes already classified as zero-length, undecodable, a non-`Stake` state, or a `Stake` delegation. Only the fields the loop reads are kept.
- `LeaderSchedule::new` and `get_slot_leaders` (`src/main.rs:121`, `src/main.rs:155`): the weighted shuffle, its seeded generator and the slot expansion are in the foreign `solana_ledger` crate. The model stops at the arguments passed to it. Its empty-stake-set failure is left out for the same reason.
- `NUM_CONSECUTIVE_LEADER_SLOTS` (`src/main.rs:5`): a constant of the foreign SDK, not part of this model.
- Printing and process exit (`src/main.rs:23-27`, `src/main.rs:41-42`, `src/main.rs:72-75`, `src/main.rs:119-123`): I/O. Exits are error values; `Cli.Message` gives the text of each CLI error.
- Aggregation.AggregateStakes: totals are unbounded `nat`s, so the `u64` overflow of `+=` (`src/main.rs:113`) is not modelled. The sorted entries carry these `nat` totals.
- Schedule.NextEpochSchedule: requires `current_epoch + 1` to fit in `u64`, so the overflow of that addition (`src/main.rs:119`) is not modelled.
- `sort_unstable_by` is modelled by an insertion sort. The comparator is a total order whose only ties are equal pairs, so every correct sort gives the same vector (`StakeOrder.StrictlySortedUnique`). The swap sequence of Rust's pattern-defeating quicksort is not modelled.
- `Vec::dedup` truncates the vector. The model compacts the array in place and returns the new length.
- `HashMap` iteration order (`src/main.rs:153`): an arbitrary choice of the next key. Every order is proved to give the same sorted vector.
- The sum of all tally values against the sum of all counted stakes is not stated. The per-key sums (`Aggregation.TalliedKeys`) and the worked example are.
