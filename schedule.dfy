/** What `leader_schedule` hands to `LeaderSchedule::new`: the seed built
    from the epoch and the canonically sorted stake vector; and the data
    flow of `main` from the stake accounts to those inputs. */
module Schedule {
  import opened Common
  import opened StakeOrder
  import Aggregation

  const SEED_BYTES: nat := 32
  const EPOCH_BYTES: nat := 8
  const SLOTS_IN_EPOCH: nat := 432000

  function Pow256(n: nat): (r: nat)
    ensures r > 0
  {
    if n == 0 then 1 else 256 * Pow256(n - 1)
  }

  /** The `n` low bytes of `x`, least significant first. */
  function LeBytes(x: nat, n: nat): (r: seq<byte>)
    ensures |r| == n
  {
    if n == 0 then [] else [x % 256] + LeBytes(x / 256, n - 1)
  }

  /** The unsigned value of a little-endian byte string. */
  function FromLeBytes(b: seq<byte>): (r: nat)
    ensures r < Pow256(|b|)
  {
    if |b| == 0 then 0 else b[0] + 256 * FromLeBytes(b[1..])
  }

  /** Decoding undoes encoding for every value that fits in `n` bytes. */
  lemma {:induction false} LeBytesRoundTrip(x: nat, n: nat)
    requires x < Pow256(n)
    ensures FromLeBytes(LeBytes(x, n)) == x
  {
    if n > 0 {
      LeBytesRoundTrip(x / 256, n - 1);
      assert LeBytes(x, n)[1..] == LeBytes(x / 256, n - 1);
    }
  }

  /** Encoding undoes decoding: a byte string is the encoding of its value. */
  lemma {:induction false} FromLeBytesRoundTrip(b: seq<byte>)
    ensures LeBytes(FromLeBytes(b), |b|) == b
  {
    if |b| > 0 {
      var x := FromLeBytes(b);
      assert x % 256 == b[0] && x / 256 == FromLeBytes(b[1..]);
      FromLeBytesRoundTrip(b[1..]);
      assert b == [b[0]] + b[1..];
    }
  }

  /** `epoch.to_le_bytes()`. */
  function ToLeBytes(epoch: u64): (r: seq<byte>)
    ensures |r| == EPOCH_BYTES && FromLeBytes(r) == epoch
  {
    assert Pow256(8) == U64_LIMIT;
    LeBytesRoundTrip(epoch, 8);
    LeBytes(epoch, 8)
  }

  /** The seed `leader_schedule` builds: the epoch's eight little-endian
      bytes followed by 24 zero bytes. */
  function Seed(epoch: u64): (r: seq<byte>)
    ensures |r| == SEED_BYTES
    ensures r[..EPOCH_BYTES] == ToLeBytes(epoch)
    ensures forall i :: EPOCH_BYTES <= i < SEED_BYTES ==> r[i] == 0
    ensures FromLeBytes(r[..EPOCH_BYTES]) == epoch
  {
    ToLeBytes(epoch) + seq(SEED_BYTES - EPOCH_BYTES, _ => 0)
  }

  /** Different epochs give different seeds. */
  lemma SeedInjective(e1: u64, e2: u64)
    requires Seed(e1) == Seed(e2)
    ensures e1 == e2
  {
    assert FromLeBytes(Seed(e1)[..EPOCH_BYTES]) == e1;
  }

  /** `let mut seed = [0u8; 32]; seed[0..8].copy_from_slice(&epoch.to_le_bytes());` */
  method BuildSeed(epoch: u64) returns (seed: array<byte>)
    ensures fresh(seed)
    ensures seed[..] == Seed(epoch)
  {
    seed := new byte[SEED_BYTES](_ => 0);
    var le := ToLeBytes(epoch);
    forall i | 0 <= i < EPOCH_BYTES {
      seed[i] := le[i];
    }
  }

  /** The set of `(key, value)` pairs of a stake map. */
  function MapEntries(stakes: map<Pubkey, nat>): set<Entry>
  {
    set k | k in stakes :: Entry(k, stakes[k])
  }

  /** `s` lists every pair of `stakes` exactly once, in some order. */
  predicate IsEnumeration(s: seq<Entry>, stakes: map<Pubkey, nat>)
  {
    && |s| == |stakes|
    && (forall i :: 0 <= i < |s| ==> s[i].key in stakes && s[i].stake == stakes[s[i].key])
    && (forall i, j :: 0 <= i < j < |s| ==> s[i].key != s[j].key)
    && (forall k :: k in stakes ==> exists i :: 0 <= i < |s| && s[i].key == k)
  }

  /** An enumeration holds exactly the pairs of the map, and no element twice. */
  lemma EnumerationElements(s: seq<Entry>, stakes: map<Pubkey, nat>)
    requires IsEnumeration(s, stakes)
    ensures Elements(s) == MapEntries(stakes)
    ensures forall i, j :: 0 <= i < j < |s| ==> s[i] != s[j]
  {
    forall e | e in MapEntries(stakes) ensures e in Elements(s) {
      var i :| 0 <= i < |s| && s[i].key == e.key;
    }
  }

  /** `stakes.iter().map(..).collect()`: the pairs of the map in the map's
      own iteration order, which is left unspecified here. */
  method CollectEntries(stakes: map<Pubkey, nat>) returns (s: seq<Entry>)
    ensures IsEnumeration(s, stakes)
  {
    s := [];
    var remaining := stakes.Keys;
    while remaining != {}
      invariant remaining <= stakes.Keys
      invariant |s| + |remaining| == |stakes|
      invariant forall i :: 0 <= i < |s| ==> s[i].key in stakes && s[i].key !in remaining && s[i].stake == stakes[s[i].key]
      invariant forall i, j :: 0 <= i < j < |s| ==> s[i].key != s[j].key
      invariant forall k :: k in stakes && k !in remaining ==> exists i :: 0 <= i < |s| && s[i].key == k
      decreases remaining
    {
      var k :| k in remaining;
      ghost var before := s;
      s := s + [Entry(k, stakes[k])];
      remaining := remaining - {k};
      forall k' | k' in stakes && k' !in remaining ensures exists i :: 0 <= i < |s| && s[i].key == k' {
        if k' == k {
          assert s[|s| - 1].key == k';
        } else {
          var i :| 0 <= i < |before| && before[i].key == k';
          assert s[i] == before[i];
        }
      }
    }
  }

  /** The arguments `leader_schedule` passes to `LeaderSchedule::new`
      (the fourth, `NUM_CONSECUTIVE_LEADER_SLOTS`, is a constant of the
      foreign SDK and is not part of this model), with the epoch they are for. */
  datatype ScheduleInputs = ScheduleInputs(epoch: u64, stakes: seq<Entry>, seed: seq<byte>, slotsInEpoch: nat)

  /** `leader_schedule` up to the call into `LeaderSchedule::new`: the
      seed, and the map's pairs collected in iteration order and put
      through `sort_stakes`. */
  method LeaderScheduleInputs(epoch: u64, stakes: map<Pubkey, nat>) returns (r: ScheduleInputs)
    ensures r.epoch == epoch && r.seed == Seed(epoch) && r.slotsInEpoch == SLOTS_IN_EPOCH
    ensures StrictlySorted(r.stakes) && Elements(r.stakes) == MapEntries(stakes)
    ensures |r.stakes| == |stakes|
  {
    var seed := BuildSeed(epoch);
    var collected := CollectEntries(stakes);
    var v := new Entry[|collected|](i requires 0 <= i < |collected| => collected[i]);
    assert v[..] == collected;
    var n := SortStakes(v);
    EnumerationElements(collected, stakes);
    CanonicalLength(collected);
    r := ScheduleInputs(epoch, v[..n], seed[..], SLOTS_IN_EPOCH);
  }

  /** The sorted vector is fixed by the map alone: whatever order the map
      is iterated in, and whichever vector meets the contract of
      `LeaderScheduleInputs`, it is the same one. */
  lemma ScheduleInputsDeterministic(stakes: map<Pubkey, nat>, x: seq<Entry>, y: seq<Entry>)
    requires StrictlySorted(x) && Elements(x) == MapEntries(stakes)
    requires StrictlySorted(y) && Elements(y) == MapEntries(stakes)
    ensures x == y
  {
    StrictlySortedUnique(x, y);
  }

  /** Every enumeration of the map sorts to the same vector, and nothing is
      lost to `dedup` because the map's keys are distinct. */
  lemma EnumerationSortsCanonically(stakes: map<Pubkey, nat>, s: seq<Entry>, t: seq<Entry>)
    requires IsEnumeration(s, stakes) && IsEnumeration(t, stakes)
    ensures Canonical(s) == Canonical(t)
    ensures |Canonical(s)| == |stakes|
  {
    EnumerationElements(s, stakes);
    EnumerationElements(t, stakes);
    CanonicalCharacterized(t, Canonical(s));
    CanonicalLength(s);
  }

  /** The data flow of `main` after the RPC calls: stake is tallied with
      the filters of `current_epoch`, and the schedule is built for
      `current_epoch + 1`. */
  method NextEpochSchedule(currentEpoch: u64, accounts: seq<Aggregation.StakeAccount>)
    returns (r: Result<ScheduleInputs, Aggregation.AggregateError>)
    requires currentEpoch + 1 < U64_LIMIT
    ensures r.Err? <==> Aggregation.AggregateOutcome(accounts, currentEpoch).Err?
    ensures r.Err? ==> r.error == Aggregation.AggregateOutcome(accounts, currentEpoch).error
    ensures r.Ok? ==>
      var tally := Aggregation.Tallied(accounts, currentEpoch);
      && r.value.epoch == currentEpoch + 1
      && r.value.seed == Seed(currentEpoch + 1)
      && r.value.slotsInEpoch == SLOTS_IN_EPOCH
      && StrictlySorted(r.value.stakes)
      && Elements(r.value.stakes) == MapEntries(tally)
      && |r.value.stakes| == |tally|
  {
    var tally := Aggregation.AggregateStakes(accounts, currentEpoch);
    match tally {
      case Err(e) =>
        return Err(e);
      case Ok(stakes) =>
        var inputs := LeaderScheduleInputs(currentEpoch + 1, stakes);
        return Ok(inputs);
    }
  }

  /** The tally uses the filters of `current_epoch` although the schedule
      is for `current_epoch + 1`: a delegation activated in the current
      epoch is active in the scheduled one, yet leaves the tally unchanged. */
  lemma ActivatedThisEpochNotScheduled(p: seq<Aggregation.StakeAccount>, address: Pubkey, d: Aggregation.Delegation,
                                       q: seq<Aggregation.StakeAccount>, currentEpoch: u64)
    requires currentEpoch + 1 < U64_LIMIT
    requires d.activationEpoch == currentEpoch && d.deactivationEpoch > currentEpoch
    ensures Aggregation.Active(d, currentEpoch + 1)
    ensures var a := Aggregation.StakeAccount(address, Aggregation.Stake(d));
      Aggregation.AggregateOutcome(p + [a] + q, currentEpoch) == Aggregation.AggregateOutcome(p + q, currentEpoch)
  {
    Aggregation.LateActivationIgnored(p, address, d, q, currentEpoch);
  }
}
