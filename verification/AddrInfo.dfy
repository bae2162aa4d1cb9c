/** Entries of the address manager and the rules that say where an address may be stored. */
module AddrInfos {

  /** Identifier of an entry; NONE marks an empty cell of a table. */
  type Id = int

  /** A network address with its port; what else matters about it is asked of the rules. */
  type Address = nat

  type Host = nat

  type Network = nat

  const NONE: Id := -1
  const TRIED_BUCKET_COUNT := 256
  const NEW_BUCKET_COUNT := 1024
  const BUCKET_SIZE := 64
  const NEW_BUCKETS_PER_ADDRESS := 8
  const SET_TRIED_COLLISION_SIZE := 10
  const MINUTE := 60
  const HOUR := 3600
  const DAY := 86400

  /** The keyed hashes, the net groups, and the classification of addresses: the network they are counted for,
      and the class they are selected by; and whether the key of the hashes is null. */
  datatype Rules = Rules(
    host: Address -> Host,
    network: Address -> Network,
    netClass: Address -> Network,
    routable: Address -> bool,
    valid: Address -> bool,
    triedHash: Address -> nat,
    newHash: (Address, Host) -> nat,
    cellHash: (Address, bool, nat) -> nat,
    nullKey: bool)

  /** An announced address: what a peer tells about it. */
  datatype Announcement = Announcement(address: Address, services: set<nat>, time: int)

  datatype AddrInfo = AddrInfo(
    address: Address,
    services: set<nat>,
    time: int,
    source: Host,
    lastTry: int,
    lastCountAttempt: int,
    lastSuccess: int,
    attempts: int,
    refCount: int,
    inTried: bool,
    randomPos: int)

  /** How many entries of one network each table holds. */
  datatype NewTriedCount = NewTriedCount(inNew: int, inTried: int)

  function TriedBucket(r: Rules, a: Address): (b: nat)
    ensures b < TRIED_BUCKET_COUNT
  {
    r.triedHash(a) % TRIED_BUCKET_COUNT
  }

  function NewBucket(r: Rules, a: Address, source: Host): (b: nat)
    ensures b < NEW_BUCKET_COUNT
  {
    r.newHash(a, source) % NEW_BUCKET_COUNT
  }

  function BucketPosition(r: Rules, a: Address, inNew: bool, bucket: nat): (p: nat)
    ensures p < BUCKET_SIZE
  {
    r.cellHash(a, inNew, bucket) % BUCKET_SIZE
  }

  /** The buckets of a table lie one after the other. */
  function Cell(bucket: nat, position: nat): (k: nat)
    requires position < BUCKET_SIZE
    ensures k / BUCKET_SIZE == bucket && k % BUCKET_SIZE == position
  {
    bucket * BUCKET_SIZE + position
  }

  /** The one cell of the tried table in which an address may be. */
  function TriedCell(r: Rules, a: Address): (k: nat)
    ensures k < TRIED_BUCKET_COUNT * BUCKET_SIZE
  {
    Cell(TriedBucket(r, a), BucketPosition(r, a, false, TriedBucket(r, a)))
  }

  /** The one cell of a bucket of the new table in which an address may be. */
  function NewCell(r: Rules, a: Address, bucket: nat): (k: nat)
    ensures k / BUCKET_SIZE == bucket
    ensures bucket < NEW_BUCKET_COUNT ==> k < NEW_BUCKET_COUNT * BUCKET_SIZE
  {
    Cell(bucket, BucketPosition(r, a, true, bucket))
  }

  /** Whether an entry looks bad enough to be dropped from the new table. */
  predicate IsTerrible(info: AddrInfo, now: int) {
    if now - info.lastTry <= MINUTE then false
    else if info.time > now + 10 * MINUTE then true
    else if now - info.time > 30 * DAY then true
    else if info.lastSuccess == 0 && info.attempts >= 3 then true
    else now - info.lastSuccess > 7 * DAY && info.attempts >= 10
  }

  /** That is: it was not tried within the last minute; and it is from the future by over ten minutes, or was not heard
      of for thirty days, or was tried three times without any success, or ten times without one for a week. */
  lemma TerribleExactly(info: AddrInfo, now: int)
    ensures IsTerrible(info, now) <==>
              && now > info.lastTry + 60
              && (!(now - 2_592_000 <= info.time <= now + 600)
                  || (info.attempts >= 3 && info.lastSuccess == 0)
                  || (info.attempts >= 10 && now > info.lastSuccess + 604_800))
  {
  }

  /** Left alone, an entry that looks bad goes on doing so, unless only because it is from the future. */
  lemma StaysTerrible(info: AddrInfo, now: int, later: int)
    requires IsTerrible(info, now) && now <= later && info.time <= now + 600
    ensures IsTerrible(info, later)
  {
  }

  function Max(a: int, b: int): int {
    if a < b then b else a
  }
}
