/**
  The persistent asset policies (services/attestation/src/asset-policy-store.ts, config.ts): what each operation makes
  of the stored map, what every run of operations keeps, and the class that works on the database. Store operations run
  one after another. Name comparison is a parameter.
*/
module PolicyStore {
  import opened Outcomes
  import opened Addresses
  import Division
  import Pricing
  import Wire

  datatype Policy = Policy(address: string, name: string, rateNum: int, rateDen: int, feeBips: int)

  datatype Refusal =
    | BadAddress | EmptyName | BadNumerator | BadDenominator | BadFee
    | Duplicate(key: string) | LastAsset | NotFound(key: string)

  type Entries = map<string, Policy>

  function Normalised(codec: Codec, p: Policy): Result<Policy, Refusal> {
    match codec.Normalise(p.address)
    case None => Err(BadAddress)
    case Some(key) =>
      var name := Wire.Trim(p.name);
      if name == "" then Err(EmptyName)
      else if p.rateNum <= 0 then Err(BadNumerator)
      else if p.rateDen <= 0 then Err(BadDenominator)
      else if p.feeBips < 0 || p.feeBips > Pricing.BIPS then Err(BadFee)
      else Ok(p.(address := key, name := name))
  }

  /**
    `stored` is what the store makes of `p`: the address decoded and written again, the name without blanks around it,
    the rate as it is; all of that only for a name that is left, a positive rate and a margin of at most 100 %.
  */
  predicate StoredAs(codec: Codec, p: Policy, stored: Policy) {
    && codec.decode(p.address).Some? && stored.address == codec.encode(codec.decode(p.address).value)
    && stored.name == Wire.Trim(p.name) && stored.name != ""
    && stored.rateNum == p.rateNum > 0 && stored.rateDen == p.rateDen > 0
    && 0 <= stored.feeBips == p.feeBips <= 10000
  }

  lemma StoredAsNormalised(codec: Codec, p: Policy)
    ensures forall stored :: StoredAs(codec, p, stored) <==> Normalised(codec, p) == Ok(stored)
  {
  }

  /** Why a policy is refused: the first of these that is wrong. */
  lemma RefusedExactlyFor(codec: Codec, p: Policy)
    ensures Normalised(codec, p).Err? ==>
              Normalised(codec, p).error ==
              if codec.decode(p.address).None? then BadAddress
              else if Wire.Blank(p.name) then EmptyName
              else if p.rateNum <= 0 then BadNumerator
              else if p.rateDen <= 0 then BadDenominator
              else BadFee
  {
    Wire.TrimEmptiesBlanks(p.name);
  }

  /** A policy as the store may hold it: normal address, trimmed name, positive rate, margin within bounds. */
  predicate Good(codec: Codec, p: Policy) {
    && codec.Normalise(p.address) == Some(p.address)
    && p.name != "" && Wire.Trimmed(p.name)
    && p.rateNum > 0 && p.rateDen > 0
    && 0 <= p.feeBips <= Pricing.BIPS
  }

  lemma NormalisedIsGood(codec: Codec, p: Policy)
    requires codec.Sound() && Normalised(codec, p).Ok?
    ensures Good(codec, Normalised(codec, p).value)
  {
    codec.NormaliseSettles(p.address);
    var before, after := Wire.TrimDrops(p.name);
  }

  lemma GoodIsNormal(codec: Codec, p: Policy)
    requires Good(codec, p)
    ensures Normalised(codec, p) == Ok(p)
  {
    Wire.TrimFinds("", p.name, "");
    assert "" + p.name + "" == p.name;
  }

  predicate Lists(ps: seq<Policy>, key: string) {
    exists i | 0 <= i < |ps| :: ps[i].address == key
  }

  /** All policies normalised, left to right; the first that is refused or repeats an address ends it. */
  function NormaliseAll(codec: Codec, ps: seq<Policy>): Result<seq<Policy>, Refusal> {
    if ps == [] then Ok([])
    else
      match NormaliseAll(codec, ps[..|ps| - 1])
      case Err(e) => Err(e)
      case Ok(done) =>
        match Normalised(codec, ps[|ps| - 1])
        case Err(e) => Err(e)
        case Ok(p) => if Lists(done, p.address) then Err(Duplicate(p.address)) else Ok(done + [p])
  }

  predicate DistinctAddresses(ps: seq<Policy>) {
    forall i, j | 0 <= i < j < |ps| :: ps[i].address != ps[j].address
  }

  /** A list is taken exactly when every policy is acceptable and no two normalise to one address. */
  lemma {:induction false} TakenExactlyWhen(codec: Codec, ps: seq<Policy>, qs: seq<Policy>)
    ensures NormaliseAll(codec, ps) == Ok(qs) <==>
              && |qs| == |ps|
              && (forall i | 0 <= i < |ps| :: Normalised(codec, ps[i]) == Ok(qs[i]))
              && DistinctAddresses(qs)
  {
    hide Normalised;
    if ps != [] {
      var n := |ps| - 1;
      if |qs| == n + 1 {
        TakenExactlyWhen(codec, ps[..n], qs[..n]);
        assert qs == qs[..n] + [qs[n]];
        assert DistinctAddresses(qs) <==> DistinctAddresses(qs[..n]) && !Lists(qs[..n], qs[n].address);
      } else if NormaliseAll(codec, ps[..n]).Ok? {
        TakenExactlyWhen(codec, ps[..n], NormaliseAll(codec, ps[..n]).value);
      }
    }
  }

  /** The configured assets, addresses normalised (the schema has checked and trimmed the rest). */
  function ResolveAll(codec: Codec, assets: seq<Policy>): Result<seq<Policy>, Refusal> {
    if assets == [] then Ok([])
    else
      match ResolveAll(codec, assets[..|assets| - 1])
      case Err(e) => Err(e)
      case Ok(done) =>
        var asset := assets[|assets| - 1];
        match codec.Normalise(asset.address)
        case None => Err(BadAddress)
        case Some(key) => if Lists(done, key) then Err(Duplicate(key)) else Ok(done + [asset.(address := key)])
  }

  /** What the schema of a configured asset lets through. */
  predicate PassesSchema(codec: Codec, p: Policy) {
    && codec.Normalise(p.address).Some?
    && p.name != "" && Wire.Trimmed(p.name)
    && p.rateNum > 0 && p.rateDen > 0
    && 0 <= p.feeBips <= Pricing.BIPS
  }

  /** A configuration that loads is one an empty store takes as it is: seeding adds no error and changes no policy. */
  lemma {:induction false} ResolvedSeedsUnchanged(codec: Codec, assets: seq<Policy>)
    requires codec.Sound() && forall i | 0 <= i < |assets| :: PassesSchema(codec, assets[i])
    requires ResolveAll(codec, assets).Ok?
    ensures var ps := ResolveAll(codec, assets).value;
            NormaliseAll(codec, ps) == Ok(ps) && NormaliseAll(codec, assets) == Ok(ps)
  {
    if assets != [] {
      var n := |assets| - 1;
      ResolvedSeedsUnchanged(codec, assets[..n]);
      var done, ps := ResolveAll(codec, assets[..n]).value, ResolveAll(codec, assets).value;
      assert ps[..|ps| - 1] == done;
      codec.NormaliseSettles(assets[n].address);
      GoodIsNormal(codec, ps[|ps| - 1]);
      assert Normalised(codec, assets[n]) == Ok(ps[|ps| - 1]) by {
        Wire.TrimFinds("", assets[n].name, "");
        assert "" + assets[n].name + "" == assets[n].name;
      }
    }
  }

  // -------- what each operation makes of the stored map

  function PutAll(entries: Entries, ps: seq<Policy>): Entries {
    if ps == [] then entries
    else PutAll(entries, ps[..|ps| - 1])[ps[|ps| - 1].address := ps[|ps| - 1]]
  }

  datatype Op = Open(seeds: seq<Policy>) | Upsert(policy: Policy) | Remove(address: string)

  /** The map after an operation, or why the operation throws; a thrown operation leaves the map as it was. */
  function Outcome(codec: Codec, entries: Entries, op: Op): Result<Entries, Refusal> {
    match op
    case Open(seeds) =>
      if entries != map[] then Ok(entries)
      else (match NormaliseAll(codec, seeds)
            case Err(e) => Err(e)
            case Ok(ps) => Ok(PutAll(entries, ps)))
    case Upsert(policy) =>
      (match Normalised(codec, policy)
       case Err(e) => Err(e)
       case Ok(p) => Ok(entries[p.address := p]))
    case Remove(address) =>
      if |entries| <= 1 then Err(LastAsset)
      else match codec.Normalise(address)
        case None => Err(BadAddress)
        case Some(key) => if key in entries then Ok(entries - {key}) else Err(NotFound(key))
  }

  function Apply(codec: Codec, entries: Entries, op: Op): Entries {
    match Outcome(codec, entries, op)
    case Ok(next) => next
    case Err(_) => entries
  }

  function Run(codec: Codec, entries: Entries, ops: seq<Op>): Entries {
    if ops == [] then entries
    else Apply(codec, Run(codec, entries, ops[..|ops| - 1]), ops[|ops| - 1])
  }

  /** Every key is its policy's normal address, and every policy is good. */
  ghost predicate AllGood(codec: Codec, entries: Entries) {
    forall key | key in entries :: entries[key].address == key && Good(codec, entries[key])
  }

  lemma {:induction false} PutAllKeeps(codec: Codec, entries: Entries, ps: seq<Policy>)
    requires AllGood(codec, entries) && forall i | 0 <= i < |ps| :: Good(codec, ps[i])
    ensures AllGood(codec, PutAll(entries, ps))
    ensures entries.Keys <= PutAll(entries, ps).Keys
    ensures forall key :: key in PutAll(entries, ps) <==> key in entries || Lists(ps, key)
  {
    if ps != [] {
      var n := |ps| - 1;
      PutAllKeeps(codec, entries, ps[..n]);
      assert forall key :: Lists(ps, key) <==> Lists(ps[..n], key) || ps[n].address == key by {
        forall key ensures Lists(ps, key) <==> Lists(ps[..n], key) || ps[n].address == key {
          assert forall i | 0 <= i < n :: ps[..n][i] == ps[i];
        }
      }
    }
  }

  lemma ApplyKeeps(codec: Codec, entries: Entries, op: Op)
    requires codec.Sound() && AllGood(codec, entries)
    ensures AllGood(codec, Apply(codec, entries, op))
    ensures entries != map[] ==> Apply(codec, entries, op) != map[]
  {
    match op
    case Open(seeds) =>
      if NormaliseAll(codec, seeds).Ok? {
        var ps := NormaliseAll(codec, seeds).value;
        TakenExactlyWhen(codec, seeds, ps);
        forall i | 0 <= i < |ps| ensures Good(codec, ps[i]) {
          NormalisedIsGood(codec, seeds[i]);
        }
        PutAllKeeps(codec, entries, ps);
      }
    case Upsert(policy) =>
      if Normalised(codec, policy).Ok? {
        NormalisedIsGood(codec, policy);
        assert Normalised(codec, policy).value.address in Apply(codec, entries, op);
      }
    case Remove(address) =>
      if Outcome(codec, entries, op).Ok? {
        RemovalLeavesSome(entries, codec.Normalise(address).value);
      }
  }

  lemma RemovalLeavesSome(entries: Entries, key: string)
    requires |entries| > 1
    ensures entries - {key} != map[]
  {
    if entries.Keys <= {key} {
      assert |entries.Keys| == |entries|;
      Subset(entries.Keys, {key});
    }
    var other :| other in entries && other != key;
    assert other in entries - {key};
  }

  lemma {:induction false} Subset(a: set<string>, b: set<string>)
    requires a <= b
    ensures |a| <= |b|
  {
    if x :| x in a {
      Subset(a - {x}, b - {x});
    }
  }

  /**
    Over any sequence of openings, upserts and removals the entries stay good, and a store once filled stays filled.
  */
  lemma {:induction false} RunKeeps(codec: Codec, entries: Entries, ops: seq<Op>)
    requires codec.Sound() && AllGood(codec, entries)
    ensures AllGood(codec, Run(codec, entries, ops))
    ensures entries != map[] ==> Run(codec, entries, ops) != map[]
  {
    if ops != [] {
      RunKeeps(codec, entries, ops[..|ops| - 1]);
      ApplyKeeps(codec, Run(codec, entries, ops[..|ops| - 1]), ops[|ops| - 1]);
    }
  }

  /** The operation may change what the store says about `key`. */
  predicate Touches(codec: Codec, op: Op, key: string) {
    match op
    case Open(_) => false
    case Upsert(policy) => codec.Normalise(policy.address) == Some(key)
    case Remove(address) => codec.Normalise(address) == Some(key)
  }

  predicate SameAt(a: Entries, b: Entries, key: string) {
    (key in a <==> key in b) && (key in a && key in b ==> a[key] == b[key])
  }

  lemma UntouchedStays(codec: Codec, entries: Entries, op: Op, key: string)
    requires entries != map[] && !Touches(codec, op, key)
    ensures SameAt(entries, Apply(codec, entries, op), key)
  {
  }

  /**
    Only the operations on an address change what the store says about it: a filled store ignores its configuration.
  */
  lemma {:induction false} OnlyItsOwnOperations(codec: Codec, entries: Entries, ops: seq<Op>, key: string)
    requires codec.Sound() && AllGood(codec, entries) && entries != map[]
    requires forall i | 0 <= i < |ops| :: !Touches(codec, ops[i], key)
    ensures SameAt(entries, Run(codec, entries, ops), key)
  {
    if ops != [] {
      var before := ops[..|ops| - 1];
      RunKeeps(codec, entries, before);
      OnlyItsOwnOperations(codec, entries, before, key);
      UntouchedStays(codec, Run(codec, entries, before), ops[|ops| - 1], key);
      hide Apply, AllGood, Touches;
    }
  }

  function RateOf(p: Policy): Pricing.Rate
    requires p.rateNum > 0 && p.rateDen > 0 && p.feeBips >= 0
  {
    Pricing.Rate(p.rateNum, p.rateDen, p.feeBips)
  }

  /** From any reachable policy a positive amount has a price that divides by no zero and is not zero. */
  lemma ReachablePoliciesPrice(codec: Codec, ops: seq<Op>, key: string, fj: nat)
    requires codec.Sound() && fj > 0
    requires key in Run(codec, map[], ops)
    ensures var p := Run(codec, map[], ops)[key];
            && p.address == key && p.rateNum > 0 && p.rateDen > 0 && p.feeBips >= 0
            && Pricing.ValidRate(RateOf(p)) && Pricing.RateDen(RateOf(p)) > 0 && Pricing.Charge(RateOf(p), fj) > 0
  {
    RunKeeps(codec, map[], ops);
    var rate := RateOf(Run(codec, map[], ops)[key]);
    Pricing.RateDenPositive(rate);
    Division.CeilDivIsLeast(fj * Pricing.RateNum(rate), Pricing.RateDen(rate), 0);
    Division.MulMonotone(1, 1, fj, Pricing.RateNum(rate));
  }

  // -------- the class

  /** The entries survive the process. */
  class PolicyDatabase {
    var entries: Entries
  }

  /** `left` may stand before `right`. */
  datatype Collation = Collation(atMost: (string, string) -> bool) {
    predicate AtMost(left: string, right: string) {
      atMost(left, right)
    }

    ghost predicate Orders() {
      && (forall a, b :: AtMost(a, b) || AtMost(b, a))
      && (forall a, b, c :: AtMost(a, b) && AtMost(b, c) ==> AtMost(a, c))
    }
  }

  predicate SortedByName(order: Collation, ps: seq<Policy>) {
    forall i, j | 0 <= i < j < |ps| :: order.AtMost(ps[i].name, ps[j].name)
  }

  /** The list holds each of the entries under `keys` once and nothing else. */
  ghost predicate Enumerates(ps: seq<Policy>, entries: Entries, keys: set<string>) {
    && keys <= entries.Keys
    && DistinctAddresses(ps)
    && (forall p | p in ps :: p.address in keys && entries[p.address] == p)
    && (forall key | key in keys :: entries[key] in ps)
  }

  /** Puts one policy behind all those that may stand before it. */
  method Insert(order: Collation, ps: seq<Policy>, p: Policy) returns (out: seq<Policy>, ghost at: nat)
    requires order.Orders() && SortedByName(order, ps)
    ensures SortedByName(order, out)
    ensures at <= |ps| && out == Inserted(ps, p, at)
  {
    var i := |ps|;
    while i > 0 && !order.AtMost(ps[i - 1].name, p.name)
      invariant 0 <= i <= |ps|
      invariant forall j | i <= j < |ps| :: order.AtMost(p.name, ps[j].name)
    {
      i := i - 1;
    }
    out, at := ps[..i] + [p] + ps[i..], i;
    forall j | 0 <= j < i ensures order.AtMost(ps[j].name, p.name) {
      assert j < i - 1 ==> order.AtMost(ps[j].name, ps[i - 1].name);
    }
  }

  /** One policy put into a list at `at`. */
  function Inserted(ps: seq<Policy>, p: Policy, at: nat): seq<Policy>
    requires at <= |ps|
  {
    ps[..at] + [p] + ps[at..]
  }

  lemma InsertedAt(ps: seq<Policy>, p: Policy, at: nat)
    requires at <= |ps|
    ensures var out := Inserted(ps, p, at);
            && |out| == |ps| + 1 && out[at] == p
            && (forall i | 0 <= i < at :: out[i] == ps[i])
            && (forall i | at < i <= |ps| :: out[i] == ps[i - 1])
  {
  }

  lemma InsertedHolds(ps: seq<Policy>, p: Policy, at: nat, q: Policy)
    requires at <= |ps|
    ensures q in Inserted(ps, p, at) <==> q == p || q in ps
  {
    assert ps == ps[..at] + ps[at..];
  }

  lemma InsertedDistinct(ps: seq<Policy>, p: Policy, at: nat)
    requires at <= |ps| && DistinctAddresses(ps) && forall q | q in ps :: q.address != p.address
    ensures DistinctAddresses(Inserted(ps, p, at))
  {
    InsertedAt(ps, p, at);
    hide Inserted;
  }

  lemma EnumeratesOneMore(ps: seq<Policy>, entries: Entries, keys: set<string>, key: string, at: nat)
    requires Enumerates(ps, entries, keys) && key in entries && key !in keys && entries[key].address == key
    requires at <= |ps|
    ensures Enumerates(Inserted(ps, entries[key], at), entries, keys + {key})
  {
    var p := entries[key];
    InsertedDistinct(ps, p, at);
    forall q ensures q in Inserted(ps, p, at) <==> q == p || q in ps {
      InsertedHolds(ps, p, at, q);
    }
    hide Inserted, DistinctAddresses;
  }

  class LmdbAssetPolicyStore {
    const db: PolicyDatabase
    const codec: Codec

    ghost predicate Valid()
      reads db
    {
      codec.Sound() && AllGood(codec, db.entries)
    }

    constructor Attach(db: PolicyDatabase, codec: Codec)
      ensures this.db == db && this.codec == codec
    {
      this.db := db;
      this.codec := codec;
    }

    /** Normalises the whole list before anything is stored. */
    static method NormalisePolicies(codec: Codec, policies: seq<Policy>) returns (out: Result<seq<Policy>, Refusal>)
      ensures out == NormaliseAll(codec, policies)
    {
      var seen: set<string> := {};
      var done := [];
      for i := 0 to |policies|
        invariant NormaliseAll(codec, policies[..i]) == Ok(done)
        invariant forall key :: key in seen <==> Lists(done, key)
      {
        assert policies[..i + 1][..i] == policies[..i];
        var normalized := Normalised(codec, policies[i]);
        if normalized.Err? {
          NormaliseAllFails(codec, policies, i + 1);
          return Err(normalized.error);
        }
        if normalized.value.address in seen {
          NormaliseAllFails(codec, policies, i + 1);
          return Err(Duplicate(normalized.value.address));
        }
        seen := seen + {normalized.value.address};
        ghost var before := done;
        done := done + [normalized.value];
        forall key ensures key in seen <==> Lists(done, key) {
          assert done[|before|].address == normalized.value.address;
          assert forall k | 0 <= k < |before| :: done[k] == before[k];
        }
      }
      assert policies[..|policies|] == policies;
      out := Ok(done);
    }

    /** Opens the store, seeding it only where it is empty; an unusable list leaves the database as it was. */
    static method Open(db: PolicyDatabase, codec: Codec, supported: seq<Policy>)
      returns (out: Result<LmdbAssetPolicyStore, Refusal>)
      requires codec.Sound() && AllGood(codec, db.entries)
      modifies db
      ensures db.entries == Apply(codec, old(db.entries), Op.Open(supported))
      ensures out.Ok? <==> Outcome(codec, old(db.entries), Op.Open(supported)).Ok?
      ensures out.Ok? ==> out.value.db == db && out.value.codec == codec && out.value.Valid()
      ensures out.Err? ==> Outcome(codec, old(db.entries), Op.Open(supported)) == Err(out.error)
    {
      ApplyKeeps(codec, db.entries, Op.Open(supported));
      if db.entries == map[] {
        var normalized := NormalisePolicies(codec, supported);
        if normalized.Err? {
          return Err(normalized.error);
        }
        var ps := normalized.value;
        for i := 0 to |ps|
          invariant db.entries == PutAll(map[], ps[..i])
        {
          assert ps[..i + 1][..i] == ps[..i];
          db.entries := db.entries[ps[i].address := ps[i]];
        }
        assert ps[..|ps|] == ps;
      }
      var store := new LmdbAssetPolicyStore.Attach(db, codec);
      out := Ok(store);
    }

    method Get(address: string) returns (out: Result<Option<Policy>, Refusal>)
      requires Valid()
      ensures out == match codec.decode(address)
                     case None => Err(BadAddress)
                     case Some(a) =>
                       var key := codec.encode(a);
                       Ok(if key in db.entries then Some(db.entries[key]) else None)
      ensures out.Ok? && out.value.Some? ==>
                Good(codec, out.value.value) && Some(out.value.value.address) == codec.Normalise(address)
    {
      var key := codec.Normalise(address);
      if key.None? {
        return Err(BadAddress);
      }
      out := Ok(if key.value in db.entries then Some(db.entries[key.value]) else None);
    }

    /** All policies, each once, sorted by name. */
    method GetAll(order: Collation) returns (ps: seq<Policy>)
      requires Valid() && order.Orders()
      ensures SortedByName(order, ps)
      ensures Enumerates(ps, db.entries, db.entries.Keys)
    {
      ps := [];
      var todo := db.entries.Keys;
      while todo != {}
        invariant todo <= db.entries.Keys
        invariant SortedByName(order, ps)
        invariant Enumerates(ps, db.entries, db.entries.Keys - todo)
        decreases |todo|
      {
        var key :| key in todo;
        ghost var before, at := ps, 0;
        ps, at := Insert(order, ps, db.entries[key]);
        EnumeratesOneMore(before, db.entries, db.entries.Keys - todo, key, at);
        assert db.entries.Keys - (todo - {key}) == (db.entries.Keys - todo) + {key};
        todo := todo - {key};
      }
      assert db.entries.Keys - todo == db.entries.Keys;
    }

    method Upsert(policy: Policy) returns (out: Result<Policy, Refusal>)
      requires Valid()
      modifies db
      ensures Valid()
      ensures db.entries == Apply(codec, old(db.entries), Op.Upsert(policy))
      ensures out == Normalised(codec, policy)
      ensures out.Ok? <==> exists stored :: StoredAs(codec, policy, stored)
      ensures out.Ok? ==>
                && StoredAs(codec, policy, out.value)
                && out.value.address in db.entries && db.entries[out.value.address] == out.value
                && forall key | key != out.value.address :: SameAt(old(db.entries), db.entries, key)
      ensures out.Err? ==> db.entries == old(db.entries)
    {
      StoredAsNormalised(codec, policy);
      ApplyKeeps(codec, db.entries, Op.Upsert(policy));
      out := Normalised(codec, policy);
      if out.Ok? {
        db.entries := db.entries[out.value.address := out.value];
      }
    }

    method Remove(address: string) returns (out: Result<Policy, Refusal>)
      requires Valid()
      modifies db
      ensures Valid()
      ensures db.entries == Apply(codec, old(db.entries), Op.Remove(address))
      ensures out.Ok? <==>
                && |old(db.entries)| >= 2
                && codec.decode(address).Some? && codec.encode(codec.decode(address).value) in old(db.entries)
      ensures out.Ok? ==>
                var key := codec.encode(codec.decode(address).value);
                && out.value == old(db.entries)[key] && key !in db.entries
                && forall other | other != key :: SameAt(old(db.entries), db.entries, other)
      ensures out.Err? ==> db.entries == old(db.entries)
      ensures out.Err? ==>
                out.error == if |old(db.entries)| < 2 then LastAsset
                             else if codec.decode(address).None? then BadAddress
                             else NotFound(codec.encode(codec.decode(address).value))
    {
      ApplyKeeps(codec, db.entries, Op.Remove(address));
      if |db.entries| <= 1 {
        return Err(LastAsset);
      }
      var key := codec.Normalise(address);
      if key.None? {
        return Err(BadAddress);
      }
      if key.value !in db.entries {
        return Err(NotFound(key.value));
      }
      var existing := db.entries[key.value];
      db.entries := db.entries - {key.value};
      out := Ok(existing);
    }
  }

  /** An error in a prefix is the error of the whole list. */
  lemma {:induction false} NormaliseAllFails(codec: Codec, ps: seq<Policy>, n: nat)
    requires n <= |ps| && NormaliseAll(codec, ps[..n]).Err?
    ensures NormaliseAll(codec, ps) == NormaliseAll(codec, ps[..n])
  {
    if n == |ps| {
      assert ps[..n] == ps;
    } else {
      var m := |ps| - 1;
      assert ps[..m][..n] == ps[..n];
      NormaliseAllFails(codec, ps[..m], n);
    }
  }

  /** The configured assets, one after another, refusing a second asset with an address already seen. */
  method ResolveSupportedAssets(codec: Codec, assets: seq<Policy>) returns (out: Result<seq<Policy>, Refusal>)
    ensures out == ResolveAll(codec, assets)
  {
    var resolved := [];
    var seen: set<string> := {};
    for i := 0 to |assets|
      invariant ResolveAll(codec, assets[..i]) == Ok(resolved)
      invariant forall key :: key in seen <==> Lists(resolved, key)
    {
      assert assets[..i + 1][..i] == assets[..i];
      var key := codec.Normalise(assets[i].address);
      if key.None? {
        ResolveAllFails(codec, assets, i + 1);
        return Err(BadAddress);
      }
      if key.value in seen {
        ResolveAllFails(codec, assets, i + 1);
        return Err(Duplicate(key.value));
      }
      seen := seen + {key.value};
      ghost var before := resolved;
      resolved := resolved + [assets[i].(address := key.value)];
      forall k ensures k in seen <==> Lists(resolved, k) {
        assert resolved[|before|].address == key.value;
        assert forall j | 0 <= j < |before| :: resolved[j] == before[j];
      }
    }
    assert assets[..|assets|] == assets;
    out := Ok(resolved);
  }

  lemma {:induction false} ResolveAllFails(codec: Codec, assets: seq<Policy>, n: nat)
    requires n <= |assets| && ResolveAll(codec, assets[..n]).Err?
    ensures ResolveAll(codec, assets) == ResolveAll(codec, assets[..n])
  {
    if n == |assets| {
      assert assets[..n] == assets;
    } else {
      var m := |assets| - 1;
      assert assets[..m][..n] == assets[..n];
      ResolveAllFails(codec, assets[..m], n);
    }
  }
}
