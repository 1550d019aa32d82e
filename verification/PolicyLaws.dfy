/**
  What a store holds after any sequence of operations, in terms of the policies and addresses given to it: a second
  account of the asset policies (services/attestation/src/asset-policy-store.ts, config.ts) beside `PolicyStore`.
*/
module PolicyLaws {
  import opened Addresses
  import opened Outcomes
  import opened PolicyStore

  /** A seed list the store takes: every policy acceptable, no two with one address. */
  predicate Takes(codec: Codec, seeds: seq<Policy>, stored: seq<Policy>) {
    && |stored| == |seeds|
    && (forall i | 0 <= i < |seeds| :: StoredAs(codec, seeds[i], stored[i]))
    && (forall i, j | 0 <= i < j < |stored| :: stored[i].address != stored[j].address)
  }

  /** The operation stores `p` under its address: an accepted upsert, or the opening of an empty store with a list. */
  ghost predicate Puts(codec: Codec, before: Entries, op: Op, p: Policy) {
    match op
    case Open(seeds) => before == map[] && exists stored :: Takes(codec, seeds, stored) && p in stored
    case Upsert(policy) => StoredAs(codec, policy, p)
    case Remove(_) => false
  }

  /** The operation removes what is stored under `key`; the last policy is not removed. */
  predicate Drops(codec: Codec, before: Entries, op: Op, key: string) {
    op.Remove? && |before| >= 2 && codec.decode(op.address).Some? && codec.encode(codec.decode(op.address).value) == key
  }

  predicate Holds(entries: Entries, p: Policy) {
    p.address in entries && entries[p.address] == p
  }

  /** The operation removes or stores something under `key`. */
  ghost predicate Changes(codec: Codec, before: Entries, op: Op, key: string) {
    Drops(codec, before, op, key) || exists p :: Puts(codec, before, op, p) && p.address == key
  }

  lemma TakesIsNormalised(codec: Codec, seeds: seq<Policy>, stored: seq<Policy>)
    ensures Takes(codec, seeds, stored) <==> NormaliseAll(codec, seeds) == Ok(stored)
  {
    TakenExactlyWhen(codec, seeds, stored);
    forall i | 0 <= i < |seeds| && i < |stored|
      ensures StoredAs(codec, seeds[i], stored[i]) <==> Normalised(codec, seeds[i]) == Ok(stored[i])
    {
      StoredAsNormalised(codec, seeds[i]);
    }
    hide StoredAs, Normalised, NormaliseAll;
  }

  /** Policy `n` is the first the store does not take: it is refused, or its address is that of an earlier one. */
  ghost predicate FaultAt(codec: Codec, seeds: seq<Policy>, n: nat, e: Refusal) {
    && n < |seeds|
    && exists stored ::
         && Takes(codec, seeds[..n], stored)
         && (|| Normalised(codec, seeds[n]) == Err(e)
             || exists p :: StoredAs(codec, seeds[n], p) && Lists(stored, p.address) && e == Duplicate(p.address))
  }

  /** Opening an empty store fails exactly with the first fault of the list; a filled store opens whatever the list. */
  lemma OpenFailsExactlyAt(codec: Codec, entries: Entries, seeds: seq<Policy>, e: Refusal)
    ensures Outcome(codec, entries, Op.Open(seeds)) == Err(e) <==>
              entries == map[] && exists n: nat :: FaultAt(codec, seeds, n, e)
  {
    FirstFault(codec, seeds, e);
    hide FaultAt, NormaliseAll;
  }

  lemma {:induction false} FirstFault(codec: Codec, seeds: seq<Policy>, e: Refusal)
    ensures NormaliseAll(codec, seeds) == Err(e) <==> exists n: nat :: FaultAt(codec, seeds, n, e)
  {
    if seeds != [] {
      var last := |seeds| - 1;
      FirstFault(codec, seeds[..last], e);
      forall n: nat
        ensures FaultAt(codec, seeds, n, e) <==>
                FaultAt(codec, seeds[..last], n, e) || (n == last && FaultAt(codec, seeds, last, e))
      {
        assert n < last ==> seeds[..last][..n] == seeds[..n];
      }
      LastFault(codec, seeds, e);
      hide FaultAt, NormaliseAll;
      if NormaliseAll(codec, seeds[..last]) == Err(e) {
        var n: nat :| FaultAt(codec, seeds[..last], n, e);
        assert FaultAt(codec, seeds, n, e);
      }
    }
  }

  lemma LastFault(codec: Codec, seeds: seq<Policy>, e: Refusal)
    requires seeds != []
    ensures NormaliseAll(codec, seeds) == Err(e) <==>
              NormaliseAll(codec, seeds[..|seeds| - 1]) == Err(e) || FaultAt(codec, seeds, |seeds| - 1, e)
  {
    var last := |seeds| - 1;
    StoredAsNormalised(codec, seeds[last]);
    forall stored ensures Takes(codec, seeds[..last], stored) <==> NormaliseAll(codec, seeds[..last]) == Ok(stored) {
      TakesIsNormalised(codec, seeds[..last], stored);
    }
    hide StoredAs, Normalised, Takes, Lists;
  }

  lemma {:induction false} PutAllHolds(ps: seq<Policy>, p: Policy)
    requires DistinctAddresses(ps)
    ensures Holds(PutAll(map[], ps), p) <==> p in ps
    ensures p.address in PutAll(map[], ps) <==> Lists(ps, p.address)
  {
    if ps != [] {
      var n := |ps| - 1;
      PutAllHolds(ps[..n], p);
      assert p in ps <==> p in ps[..n] || p == ps[n];
      assert Lists(ps, p.address) <==> Lists(ps[..n], p.address) || p.address == ps[n].address by {
        assert forall i | 0 <= i < n :: ps[..n][i] == ps[i];
      }
    }
  }

  lemma OpenStep(codec: Codec, before: Entries, seeds: seq<Policy>, p: Policy)
    ensures Holds(Apply(codec, before, Op.Open(seeds)), p) <==>
              || Puts(codec, before, Op.Open(seeds), p)
              || (Holds(before, p) && !Changes(codec, before, Op.Open(seeds), p.address))
  {
    forall stored ensures Takes(codec, seeds, stored) <==> NormaliseAll(codec, seeds) == Ok(stored) {
      TakesIsNormalised(codec, seeds, stored);
    }
    if before == map[] && NormaliseAll(codec, seeds).Ok? {
      PutAllHolds(NormaliseAll(codec, seeds).value, p);
    }
    hide NormaliseAll, PutAll, StoredAs;
  }

  lemma UpsertStep(codec: Codec, before: Entries, policy: Policy, p: Policy)
    ensures Holds(Apply(codec, before, Op.Upsert(policy)), p) <==>
              || Puts(codec, before, Op.Upsert(policy), p)
              || (Holds(before, p) && !Changes(codec, before, Op.Upsert(policy), p.address))
  {
    StoredAsNormalised(codec, policy);
    if stored :| StoredAs(codec, policy, stored) {
      assert Puts(codec, before, Op.Upsert(policy), stored);
    }
    hide StoredAs, Normalised;
  }

  /** One operation: what it stores is held, and what was held stays unless the operation changes that address. */
  lemma StepExactlyAs(codec: Codec, before: Entries, op: Op, p: Policy)
    ensures Holds(Apply(codec, before, op), p) <==>
              Puts(codec, before, op, p) || (Holds(before, p) && !Changes(codec, before, op, p.address))
  {
    match op
    case Open(seeds) => OpenStep(codec, before, seeds, p);
    case Upsert(policy) => UpsertStep(codec, before, policy, p);
    case Remove(address) => hide NormaliseAll, StoredAs;
  }

  /** From operation `i` on nothing is removed or stored under `key`. */
  ghost predicate QuietFrom(codec: Codec, entries: Entries, ops: seq<Op>, i: nat, key: string) {
    forall j: nat | i <= j < |ops| :: !Changes(codec, Run(codec, entries, ops[..j]), ops[j], key)
  }

  ghost predicate PutLastAt(codec: Codec, entries: Entries, ops: seq<Op>, i: nat, p: Policy) {
    && i < |ops|
    && Puts(codec, Run(codec, entries, ops[..i]), ops[i], p)
    && QuietFrom(codec, entries, ops, i + 1, p.address)
  }

  lemma QuietOneMore(codec: Codec, entries: Entries, ops: seq<Op>, i: nat, key: string)
    requires i < |ops|
    ensures var n := |ops| - 1;
            QuietFrom(codec, entries, ops, i, key) <==>
              && QuietFrom(codec, entries, ops[..n], i, key)
              && !Changes(codec, Run(codec, entries, ops[..n]), ops[n], key)
  {
    var n := |ops| - 1;
    hide Changes, Run;
    forall j: nat | j < n ensures ops[..j] == ops[..n][..j] && ops[j] == ops[..n][j] {
    }
    if QuietFrom(codec, entries, ops, i, key) {
      assert forall j: nat | i <= j < n ::
          Changes(codec, Run(codec, entries, ops[..n][..j]), ops[..n][j], key) ==
          Changes(codec, Run(codec, entries, ops[..j]), ops[j], key);
    } else {
      var j: nat :| i <= j < |ops| && Changes(codec, Run(codec, entries, ops[..j]), ops[j], key);
      assert j < n ==> Changes(codec, Run(codec, entries, ops[..n][..j]), ops[..n][j], key);
    }
  }

  lemma PutLastOneMore(codec: Codec, entries: Entries, ops: seq<Op>, i: nat, p: Policy)
    requires ops != []
    ensures var n := |ops| - 1;
            PutLastAt(codec, entries, ops, i, p) <==>
              || (i == n && Puts(codec, Run(codec, entries, ops[..n]), ops[n], p))
              || (PutLastAt(codec, entries, ops[..n], i, p)
                  && !Changes(codec, Run(codec, entries, ops[..n]), ops[n], p.address))
  {
    var n := |ops| - 1;
    hide Puts, Changes, Run;
    if i < n {
      assert ops[..i] == ops[..n][..i];
      QuietOneMore(codec, entries, ops, i + 1, p.address);
    }
  }

  /**
    After any sequence of operations a policy is held exactly if some operation stored it and none after that removed or
    replaced it, or it was held from the start and none did.
  */
  lemma {:induction false} HeldExactlyWhen(codec: Codec, entries: Entries, ops: seq<Op>, p: Policy)
    ensures Holds(Run(codec, entries, ops), p) <==>
              || (exists i: nat :: PutLastAt(codec, entries, ops, i, p))
              || (Holds(entries, p) && QuietFrom(codec, entries, ops, 0, p.address))
  {
    if ops != [] {
      var n := |ops| - 1;
      HeldExactlyWhen(codec, entries, ops[..n], p);
      StepExactlyAs(codec, Run(codec, entries, ops[..n]), ops[n], p);
      QuietOneMore(codec, entries, ops, 0, p.address);
      forall i: nat
        ensures PutLastAt(codec, entries, ops, i, p) <==>
                  || (i == n && Puts(codec, Run(codec, entries, ops[..n]), ops[n], p))
                  || (PutLastAt(codec, entries, ops[..n], i, p)
                      && !Changes(codec, Run(codec, entries, ops[..n]), ops[n], p.address))
      {
        PutLastOneMore(codec, entries, ops, i, p);
      }
      hide PutLastAt, Puts, Changes, QuietFrom, Holds, Apply;
      if Puts(codec, Run(codec, entries, ops[..n]), ops[n], p) {
        assert PutLastAt(codec, entries, ops, n, p);
      }
    }
  }

  /** `p` is the configured asset with its address decoded and written again. */
  predicate ResolvesTo(codec: Codec, asset: Policy, p: Policy) {
    && codec.decode(asset.address).Some?
    && p == asset.(address := codec.encode(codec.decode(asset.address).value))
  }

  /** A configuration is taken exactly if every address decodes and no two are the same; only the addresses change. */
  lemma {:induction false} ResolvedExactlyWhen(codec: Codec, assets: seq<Policy>, ps: seq<Policy>)
    ensures ResolveAll(codec, assets) == Ok(ps) <==>
              && |ps| == |assets|
              && (forall i | 0 <= i < |assets| :: ResolvesTo(codec, assets[i], ps[i]))
              && (forall i, j | 0 <= i < j < |ps| :: ps[i].address != ps[j].address)
  {
    if assets != [] {
      var n := |assets| - 1;
      ResolveAllStep(codec, assets, if |ps| == n + 1 then ps[n] else assets[n]);
      hide ResolvesTo, ResolveAll;
      if |ps| == n + 1 {
        ResolvedExactlyWhen(codec, assets[..n], ps[..n]);
        assert ps == ps[..n] + [ps[n]];
        assert DistinctAddresses(ps) <==> DistinctAddresses(ps[..n]) && !Lists(ps[..n], ps[n].address);
      } else if ResolveAll(codec, assets[..n]).Ok? {
        ResolvedExactlyWhen(codec, assets[..n], ResolveAll(codec, assets[..n]).value);
      }
    }
  }

  lemma ResolveAllStep(codec: Codec, assets: seq<Policy>, p: Policy)
    requires assets != []
    ensures var n := |assets| - 1;
            var done, all := ResolveAll(codec, assets[..n]), ResolveAll(codec, assets);
            && (all.Ok? ==>
                  done.Ok? && |all.value| == |done.value| + 1 && all.value[..|done.value|] == done.value)
            && (done.Ok? ==>
                  (all == Ok(done.value + [p]) <==> ResolvesTo(codec, assets[n], p) && !Lists(done.value, p.address)))
  {
  }
}
