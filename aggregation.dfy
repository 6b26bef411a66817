/** Summing the active delegations of all stake accounts into one total
    per vote account, as the loop in `main` does for `current_epoch`. */
module Aggregation {
  import opened Common

  /** The part of a decoded `Stake` that the loop reads. */
  datatype Delegation = Delegation(voter: Pubkey, stake: u64, activationEpoch: u64, deactivationEpoch: u64)

  /** An account's data as the loop sees it: no bytes at all, bytes that do
      not decode as a `StakeState`, a `StakeState` other than `Stake`
      (uninitialized, initialized or rewards pool), or a delegated stake. */
  datatype AccountData =
    | ZeroLength
    | Undecodable
    | NonStake
    | Stake(delegation: Delegation)

  /** One `(pubkey, account)` pair of the RPC response. */
  datatype StakeAccount = StakeAccount(address: Pubkey, data: AccountData)

  /** Failing to decode an account ends the process, naming that account. */
  datatype AggregateError = DecodeFailed(address: Pubkey)

  /** The tally: vote account to total delegated stake (kept unbounded). */
  type Tally = map<Pubkey, nat>

  /** A delegation survives both filters of the loop: it is not activated
      in this epoch or later, and not deactivated before it. */
  predicate Active(d: Delegation, currentEpoch: u64)
    ensures Active(d, currentEpoch) <==> d.activationEpoch < currentEpoch <= d.deactivationEpoch
    ensures Active(d, currentEpoch) ==> currentEpoch > 0
  {
    !(d.activationEpoch >= currentEpoch) && !(d.deactivationEpoch < currentEpoch)
  }

  /** The account adds its stake to some total. */
  predicate Counted(a: StakeAccount, currentEpoch: u64)
    ensures Counted(a, currentEpoch) ==> !a.data.ZeroLength? && !a.data.Undecodable? && !a.data.NonStake?
  {
    a.data.Stake? && Active(a.data.delegation, currentEpoch)
  }

  /** What account `a` adds to the total of vote account `v`. */
  function Contribution(a: StakeAccount, currentEpoch: u64, v: Pubkey): nat
  {
    if Counted(a, currentEpoch) && a.data.delegation.voter == v then a.data.delegation.stake else 0
  }

  /** The sum of the contributions of all accounts to `v`. */
  function Total(s: seq<StakeAccount>, currentEpoch: u64, v: Pubkey): nat
    decreases |s|
  {
    if |s| == 0 then 0
    else Total(s[..|s| - 1], currentEpoch, v) + Contribution(s[|s| - 1], currentEpoch, v)
  }

  /** The vote accounts some counted account delegates to. */
  function Voters(s: seq<StakeAccount>, currentEpoch: u64): set<Pubkey>
  {
    set i | 0 <= i < |s| && Counted(s[i], currentEpoch) :: s[i].data.delegation.voter
  }

  /** The reference tally: one key per delegated-to vote account, holding
      the sum of what the counted accounts delegate to it. */
  function Tallied(s: seq<StakeAccount>, currentEpoch: u64): (r: Tally)
    ensures |s| == 0 ==> r == map[]
  {
    map v | v in Voters(s, currentEpoch) :: Total(s, currentEpoch, v)
  }

  /** The first account, in response order, that does not decode. */
  function FirstUndecodable(s: seq<StakeAccount>): Option<Pubkey>
    decreases |s|
  {
    if |s| == 0 then None
    else if s[0].data.Undecodable? then Some(s[0].address)
    else FirstUndecodable(s[1..])
  }

  /** What the loop produces: the decode failure of the first undecodable
      account, or else the reference tally. */
  function AggregateOutcome(s: seq<StakeAccount>, currentEpoch: u64): Result<Tally, AggregateError>
  {
    match FirstUndecodable(s)
    case Some(address) => Err(DecodeFailed(address))
    case None => Ok(Tallied(s, currentEpoch))
  }

  lemma {:induction false} FirstUndecodableNone(s: seq<StakeAccount>)
    ensures FirstUndecodable(s).None? <==> forall i :: 0 <= i < |s| ==> !s[i].data.Undecodable?
    decreases |s|
  {
    if |s| > 0 {
      FirstUndecodableNone(s[1..]);
      assert forall i :: 1 <= i < |s| ==> s[i] == s[1..][i - 1];
    }
  }

  /** The first failure of `p + q` is the first of `p`, or else the first of `q`. */
  lemma {:induction false} FirstUndecodableAppend(p: seq<StakeAccount>, q: seq<StakeAccount>)
    ensures FirstUndecodable(p + q) == if FirstUndecodable(p).Some? then FirstUndecodable(p) else FirstUndecodable(q)
    decreases |p|
  {
    if |p| > 0 {
      assert (p + q)[1..] == p[1..] + q;
      FirstUndecodableAppend(p[1..], q);
    } else {
      assert p + q == q;
    }
  }

  /** A vote account outside `Voters` has a zero total. */
  lemma {:induction false} TotalOutsideVoters(s: seq<StakeAccount>, currentEpoch: u64, v: Pubkey)
    requires v !in Voters(s, currentEpoch)
    ensures Total(s, currentEpoch, v) == 0
    decreases |s|
  {
    if |s| > 0 {
      var p := s[..|s| - 1];
      assert Voters(p, currentEpoch) <= Voters(s, currentEpoch) by {
        forall w | w in Voters(p, currentEpoch) ensures w in Voters(s, currentEpoch) {
          var i :| 0 <= i < |p| && Counted(p[i], currentEpoch) && p[i].data.delegation.voter == w;
          assert s[i] == p[i];
        }
      }
      TotalOutsideVoters(p, currentEpoch, v);
      if Counted(s[|s| - 1], currentEpoch) {
        assert s[|s| - 1].data.delegation.voter in Voters(s, currentEpoch);
      }
    }
  }

  /** Totals add up over a split of the account list. */
  lemma {:induction false} TotalAppend(p: seq<StakeAccount>, q: seq<StakeAccount>, currentEpoch: u64, v: Pubkey)
    ensures Total(p + q, currentEpoch, v) == Total(p, currentEpoch, v) + Total(q, currentEpoch, v)
    decreases |q|
  {
    if |q| == 0 {
      assert p + q == p;
    } else {
      var q' := q[..|q| - 1];
      assert (p + q)[..|p + q| - 1] == p + q';
      TotalAppend(p, q', currentEpoch, v);
    }
  }

  lemma VotersAppend(p: seq<StakeAccount>, q: seq<StakeAccount>, currentEpoch: u64)
    ensures Voters(p + q, currentEpoch) == Voters(p, currentEpoch) + Voters(q, currentEpoch)
  {
    var s := p + q;
    forall w ensures w in Voters(s, currentEpoch) <==> w in Voters(p, currentEpoch) + Voters(q, currentEpoch) {
      if w in Voters(s, currentEpoch) {
        var i :| 0 <= i < |s| && Counted(s[i], currentEpoch) && s[i].data.delegation.voter == w;
        if i < |p| {
          assert s[i] == p[i];
        } else {
          assert s[i] == q[i - |p|];
        }
      }
      if w in Voters(p, currentEpoch) {
        var i :| 0 <= i < |p| && Counted(p[i], currentEpoch) && p[i].data.delegation.voter == w;
        assert s[i] == p[i];
      }
      if w in Voters(q, currentEpoch) {
        var i :| 0 <= i < |q| && Counted(q[i], currentEpoch) && q[i].data.delegation.voter == w;
        assert s[|p| + i] == q[i];
      }
    }
  }

  /** Tallies agree when the delegated-to vote accounts and all totals agree. */
  lemma TalliedEqual(s: seq<StakeAccount>, t: seq<StakeAccount>, currentEpoch: u64)
    requires Voters(s, currentEpoch) == Voters(t, currentEpoch)
    requires forall v :: Total(s, currentEpoch, v) == Total(t, currentEpoch, v)
    ensures Tallied(s, currentEpoch) == Tallied(t, currentEpoch)
  {
  }

  /** One more account updates the tally exactly as
      `*stakes.entry(voter).or_insert(0) += stake` does, if it is counted. */
  lemma TalliedSnoc(s: seq<StakeAccount>, a: StakeAccount, currentEpoch: u64)
    ensures Tallied(s + [a], currentEpoch) ==
      if Counted(a, currentEpoch) then
        var v := a.data.delegation.voter;
        Tallied(s, currentEpoch)[v := (if v in Tallied(s, currentEpoch) then Tallied(s, currentEpoch)[v] else 0) + a.data.delegation.stake]
      else Tallied(s, currentEpoch)
  {
    var t := s + [a];
    assert t[..|t| - 1] == s;
    VotersAppend(s, [a], currentEpoch);
    assert Voters([a], currentEpoch) == if Counted(a, currentEpoch) then {a.data.delegation.voter} else {} by {
      assert [a][0] == a;
    }
    if Counted(a, currentEpoch) {
      var v := a.data.delegation.voter;
      if v !in Voters(s, currentEpoch) {
        TotalOutsideVoters(s, currentEpoch, v);
      }
    }
  }

  /** The stake aggregation loop of `main`. */
  method AggregateStakes(accounts: seq<StakeAccount>, currentEpoch: u64) returns (r: Result<Tally, AggregateError>)
    ensures r == AggregateOutcome(accounts, currentEpoch)
  {
    var stakes: Tally := map[];
    var i := 0;
    while i < |accounts|
      invariant 0 <= i <= |accounts|
      invariant FirstUndecodable(accounts[..i]).None?
      invariant stakes == Tallied(accounts[..i], currentEpoch)
    {
      var account := accounts[i];
      assert accounts[..i + 1] == accounts[..i] + [account];
      TalliedSnoc(accounts[..i], account, currentEpoch);
      FirstUndecodableAppend(accounts[..i], [account]);
      i := i + 1;
      match account.data {
        case ZeroLength =>
          continue;
        case Undecodable =>
          FirstUndecodableAppend(accounts[..i], accounts[i..]);
          assert accounts[..i] + accounts[i..] == accounts;
          return Err(DecodeFailed(account.address));
        case NonStake =>
        case Stake(d) =>
          if d.activationEpoch >= currentEpoch {
            continue;
          }
          if d.deactivationEpoch < currentEpoch {
            continue;
          }
          var v := d.voter;
          var previous := if v in stakes then stakes[v] else 0;
          stakes := stakes[v := previous + d.stake];
      }
    }
    assert accounts[..i] == accounts;
    return Ok(stakes);
  }

  /** A key is present exactly when some counted account delegates to it,
      and then it holds the sum of those accounts' stakes. */
  lemma TalliedKeys(s: seq<StakeAccount>, currentEpoch: u64, v: Pubkey)
    ensures v in Tallied(s, currentEpoch) <==>
      exists i :: 0 <= i < |s| && Counted(s[i], currentEpoch) && s[i].data.delegation.voter == v
    ensures v in Tallied(s, currentEpoch) ==> Tallied(s, currentEpoch)[v] == Total(s, currentEpoch, v)
    ensures v !in Tallied(s, currentEpoch) ==> Total(s, currentEpoch, v) == 0
  {
    if v !in Tallied(s, currentEpoch) {
      TotalOutsideVoters(s, currentEpoch, v);
    }
  }

  /** An account that decodes but is not counted (zero length, not a
      `Stake`, or filtered out by its epochs) changes nothing, wherever it
      stands in the response. */
  lemma IgnoredAccount(p: seq<StakeAccount>, a: StakeAccount, q: seq<StakeAccount>, currentEpoch: u64)
    requires !a.data.Undecodable? && !Counted(a, currentEpoch)
    ensures AggregateOutcome(p + [a] + q, currentEpoch) == AggregateOutcome(p + q, currentEpoch)
  {
    var s, t := p + [a] + q, p + q;
    FirstUndecodableAppend(p + [a], q);
    FirstUndecodableAppend(p, [a]);
    FirstUndecodableAppend(p, q);
    assert FirstUndecodable([a]) == None by {
      assert [a][1..] == [];
    }
    VotersAppend(p + [a], q, currentEpoch);
    VotersAppend(p, [a], currentEpoch);
    VotersAppend(p, q, currentEpoch);
    assert Voters([a], currentEpoch) == {} by {
      assert [a][0] == a;
    }
    forall v ensures Total(s, currentEpoch, v) == Total(t, currentEpoch, v) {
      TotalAppend(p + [a], q, currentEpoch, v);
      TotalAppend(p, [a], currentEpoch, v);
      TotalAppend(p, q, currentEpoch, v);
      assert [a][..0] == [];
    }
    TalliedEqual(s, t, currentEpoch);
  }

  lemma ZeroLengthIgnored(p: seq<StakeAccount>, address: Pubkey, q: seq<StakeAccount>, currentEpoch: u64)
    ensures AggregateOutcome(p + [StakeAccount(address, ZeroLength)] + q, currentEpoch) == AggregateOutcome(p + q, currentEpoch)
  {
    IgnoredAccount(p, StakeAccount(address, ZeroLength), q, currentEpoch);
  }

  lemma NonStakeIgnored(p: seq<StakeAccount>, address: Pubkey, q: seq<StakeAccount>, currentEpoch: u64)
    ensures AggregateOutcome(p + [StakeAccount(address, NonStake)] + q, currentEpoch) == AggregateOutcome(p + q, currentEpoch)
  {
    IgnoredAccount(p, StakeAccount(address, NonStake), q, currentEpoch);
  }

  /** A delegation activated in the current epoch or later (including the
      never-activated `u64::MAX`) contributes nothing. */
  lemma LateActivationIgnored(p: seq<StakeAccount>, address: Pubkey, d: Delegation, q: seq<StakeAccount>, currentEpoch: u64)
    requires d.activationEpoch >= currentEpoch
    ensures AggregateOutcome(p + [StakeAccount(address, Stake(d))] + q, currentEpoch) == AggregateOutcome(p + q, currentEpoch)
  {
    IgnoredAccount(p, StakeAccount(address, Stake(d)), q, currentEpoch);
  }

  /** A delegation deactivated before the current epoch contributes nothing. */
  lemma EarlyDeactivationIgnored(p: seq<StakeAccount>, address: Pubkey, d: Delegation, q: seq<StakeAccount>, currentEpoch: u64)
    requires d.deactivationEpoch < currentEpoch
    ensures AggregateOutcome(p + [StakeAccount(address, Stake(d))] + q, currentEpoch) == AggregateOutcome(p + q, currentEpoch)
  {
    IgnoredAccount(p, StakeAccount(address, Stake(d)), q, currentEpoch);
  }

  /** A delegation activated before the current epoch and deactivated in it
      is still counted: its vote account is a key and receives its stake. */
  lemma DeactivatingThisEpochCounted(p: seq<StakeAccount>, address: Pubkey, d: Delegation, q: seq<StakeAccount>, currentEpoch: u64)
    requires d.activationEpoch < currentEpoch && d.deactivationEpoch == currentEpoch
    ensures var s := p + [StakeAccount(address, Stake(d))] + q;
      d.voter in Tallied(s, currentEpoch)
      && Tallied(s, currentEpoch)[d.voter] == Total(p + q, currentEpoch, d.voter) + d.stake
  {
    var a := StakeAccount(address, Stake(d));
    var s := p + [a] + q;
    assert s[|p|] == a;
    TalliedKeys(s, currentEpoch, d.voter);
    TotalAppend(p + [a], q, currentEpoch, d.voter);
    TotalAppend(p, [a], currentEpoch, d.voter);
    TotalAppend(p, q, currentEpoch, d.voter);
    assert [a][..0] == [];
  }

  /** Removing one element of a permutation: `t` with its `k`th entry taken out. */
  /** Because of `or_insert(0)`, an active delegation of stake 0 still
      creates its vote account's key; alone, it gives that key the value 0. */
  lemma ZeroStakeKeyPresent(p: seq<StakeAccount>, address: Pubkey, d: Delegation, q: seq<StakeAccount>, currentEpoch: u64)
    requires Active(d, currentEpoch) && d.stake == 0
    ensures var s := p + [StakeAccount(address, Stake(d))] + q;
      d.voter in Tallied(s, currentEpoch)
      && Tallied(s, currentEpoch)[d.voter] == Total(p + q, currentEpoch, d.voter)
    ensures Tallied([StakeAccount(address, Stake(d))], currentEpoch) == map[d.voter := 0]
  {
    var a := StakeAccount(address, Stake(d));
    var s := p + [a] + q;
    assert s[|p|] == a;
    TalliedKeys(s, currentEpoch, d.voter);
    TotalAppend(p + [a], q, currentEpoch, d.voter);
    TotalAppend(p, [a], currentEpoch, d.voter);
    TotalAppend(p, q, currentEpoch, d.voter);
    assert [a][..0] == [];
    TalliedSnoc([], a, currentEpoch);
    assert [] + [a] == [a];
  }

  lemma TotalRemove(t: seq<StakeAccount>, k: nat, currentEpoch: u64, v: Pubkey)
    requires k < |t|
    ensures Total(t, currentEpoch, v) == Total(t[..k] + t[k + 1..], currentEpoch, v) + Contribution(t[k], currentEpoch, v)
  {
    assert t == t[..k] + [t[k]] + t[k + 1..];
    TotalAppend(t[..k] + [t[k]], t[k + 1..], currentEpoch, v);
    TotalAppend(t[..k], [t[k]], currentEpoch, v);
    TotalAppend(t[..k], t[k + 1..], currentEpoch, v);
    assert [t[k]][..0] == [];
  }

  /** Totals do not depend on the order of the accounts. */
  lemma {:induction false} TotalPermutation(s: seq<StakeAccount>, t: seq<StakeAccount>, currentEpoch: u64, v: Pubkey)
    requires multiset(s) == multiset(t)
    ensures Total(s, currentEpoch, v) == Total(t, currentEpoch, v)
    decreases |s|
  {
    if |s| == 0 {
      assert |t| == |multiset(t)| == 0;
    } else {
      var x := s[|s| - 1];
      var s' := s[..|s| - 1];
      assert s == s' + [x];
      assert x in multiset(t);
      var k :| 0 <= k < |t| && t[k] == x;
      var t' := t[..k] + t[k + 1..];
      assert t == t[..k] + [x] + t[k + 1..];
      assert multiset(t') == multiset(t) - multiset{x};
      assert multiset(s') == multiset(s) - multiset{x};
      TotalPermutation(s', t', currentEpoch, v);
      TotalRemove(t, k, currentEpoch, v);
      assert Total(s, currentEpoch, v) == Total(s', currentEpoch, v) + Contribution(x, currentEpoch, v);
    }
  }

  lemma VotersPermutation(s: seq<StakeAccount>, t: seq<StakeAccount>, currentEpoch: u64)
    requires multiset(s) == multiset(t)
    ensures Voters(s, currentEpoch) == Voters(t, currentEpoch)
  {
    forall w | w in Voters(s, currentEpoch) ensures w in Voters(t, currentEpoch) {
      var i :| 0 <= i < |s| && Counted(s[i], currentEpoch) && s[i].data.delegation.voter == w;
      assert s[i] in multiset(t);
      var j :| 0 <= j < |t| && t[j] == s[i];
    }
    forall w | w in Voters(t, currentEpoch) ensures w in Voters(s, currentEpoch) {
      var j :| 0 <= j < |t| && Counted(t[j], currentEpoch) && t[j].data.delegation.voter == w;
      assert t[j] in multiset(s);
      var i :| 0 <= i < |s| && s[i] == t[j];
    }
  }

  /** The outcome does not depend on the order of the response: it fails
      for one order exactly when it fails for the other, and otherwise the
      tallies are equal. */
  lemma AggregateOrderIndependent(s: seq<StakeAccount>, t: seq<StakeAccount>, currentEpoch: u64)
    requires multiset(s) == multiset(t)
    ensures AggregateOutcome(s, currentEpoch).Ok? <==> AggregateOutcome(t, currentEpoch).Ok?
    ensures AggregateOutcome(s, currentEpoch).Ok? ==> AggregateOutcome(s, currentEpoch) == AggregateOutcome(t, currentEpoch)
  {
    FirstUndecodablePermutation(s, t);
    VotersPermutation(s, t, currentEpoch);
    forall v ensures Total(s, currentEpoch, v) == Total(t, currentEpoch, v) {
      TotalPermutation(s, t, currentEpoch, v);
    }
    TalliedEqual(s, t, currentEpoch);
  }

  /** Whether some account fails to decode does not depend on the order. */
  lemma FirstUndecodablePermutation(s: seq<StakeAccount>, t: seq<StakeAccount>)
    requires multiset(s) == multiset(t)
    ensures FirstUndecodable(s).None? <==> FirstUndecodable(t).None?
  {
    FirstUndecodableNone(s);
    FirstUndecodableNone(t);
    if FirstUndecodable(s).None? {
      forall j | 0 <= j < |t| ensures !t[j].data.Undecodable? {
        assert t[j] in multiset(s);
      }
    }
    if FirstUndecodable(t).None? {
      forall i | 0 <= i < |s| ensures !s[i].data.Undecodable? {
        assert s[i] in multiset(t);
      }
    }
  }

  /** Two active delegations of 100 and 250 to one vote account total 350. */
  lemma TwoDelegationsExample(a1: Pubkey, a2: Pubkey, voter: Pubkey)
    ensures var d1 := Delegation(voter, 100, 3, 0xFFFF_FFFF_FFFF_FFFF);
      var d2 := Delegation(voter, 250, 9, 10);
      var r := AggregateOutcome([StakeAccount(a1, Stake(d1)), StakeAccount(a2, Stake(d2))], 10);
      r.Ok? && r.value.Keys == {voter} && r.value[voter] == 350
  {
    var d1 := Delegation(voter, 100, 3, 0xFFFF_FFFF_FFFF_FFFF);
    var d2 := Delegation(voter, 250, 9, 10);
    var s := [StakeAccount(a1, Stake(d1)), StakeAccount(a2, Stake(d2))];
    assert s[..1][..0] == [] && s[..|s| - 1] == s[..1];
    assert s[1..][1..] == [];
    assert Counted(s[0], 10) && Counted(s[1], 10);
    assert voter in Voters(s, 10);
    assert Voters(s, 10) == {voter};
    assert Total(s[..1], 10, voter) == 100;
    assert Total(s, 10, voter) == 350;
    assert FirstUndecodable(s[1..]) == None;
    assert Tallied(s, 10).Keys == {voter} && Tallied(s, 10)[voter] == 350;
  }
}
