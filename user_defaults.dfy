/**
 * SwiftUtils/UserDefaults.swift: a typed key/value preference store kept on
 * disk and, for keys that ask for it, mirrored to a cloud store. Each side
 * carries the time of its last synced change; when the two may have diverged,
 * the side with the later time wins and its entries are copied to the other.
 *
 * Values are opaque (type `V`), dates are integers, and the current time is a
 * parameter (`now`) of every operation that reads the clock; an operation
 * that reads it twice takes the second, strictly later reading as `cloudNow`.
 */
module UserDefaults {
  import opened Wrappers
  import Extensions

  /** A key: its name in storage, the value `get` falls back to, and whether it syncs to the cloud. */
  datatype UDKey<V> = UDKey(name: string, defaultValue: V, iCloudSync: bool)

  /** The two-argument `UDKey` initializer: a key that stays on disk. */
  function LocalKey<V>(name: string, defaultValue: V): (k: UDKey<V>)
    ensures k.name == name && k.defaultValue == defaultValue && !k.iCloudSync
  {
    UDKey(name, defaultValue, false)
  }

  /** Both storages and their last-change timestamps, as a value. */
  datatype Storage<V> = Storage(
    disk: map<string, V>,
    cloud: map<string, V>,
    diskTimestamp: Option<int>,
    cloudTimestamp: Option<int>)

  // The change reasons of the cloud key/value store's external-change notification.
  const ServerChange := 0
  const InitialSyncChange := 1
  const QuotaViolationChange := 2
  const AccountChange := 3

  /** The reasons on which a cloud change notification reconciles the two storages. */
  predicate ReconcilesOn(reason: int) {
    reason == ServerChange || reason == InitialSyncChange || reason == AccountChange
  }

  /** `useCloud`, with the strict date order. */
  predicate CloudWins(diskTimestamp: Option<int>, cloudTimestamp: Option<int>) {
    if cloudTimestamp.None? then false
    else if diskTimestamp.None? then true
    else Extensions.DateLess(diskTimestamp.value, cloudTimestamp.value)
  }

  /** `useCloud` as written: `cloud > disk` through NSDate's non-strict `<`. */
  predicate CloudWinsAsWritten(diskTimestamp: Option<int>, cloudTimestamp: Option<int>) {
    if cloudTimestamp.None? then false
    else if diskTimestamp.None? then true
    else Extensions.DateLessAsWritten(diskTimestamp.value, cloudTimestamp.value)
  }

  /** `mostRecentTimestamp`: the winner's timestamp, or `now` when neither side has one. */
  function MostRecent(diskTimestamp: Option<int>, cloudTimestamp: Option<int>, now: int): int {
    if cloudTimestamp.None? then diskTimestamp.GetOr(now)
    else if diskTimestamp.None? then cloudTimestamp.value
    else if CloudWins(diskTimestamp, cloudTimestamp) then cloudTimestamp.value
    else diskTimestamp.value
  }

  /** The storages after `solveDiskCloudCollision` with sync on. */
  function Reconciled<V>(s: Storage<V>, now: int): Storage<V> {
    var stamp := MostRecent(s.diskTimestamp, s.cloudTimestamp, now);
    if CloudWins(s.diskTimestamp, s.cloudTimestamp) then
      Storage(s.disk + s.cloud, s.cloud, Some(stamp), Some(stamp))
    else
      Storage(s.disk, s.cloud + s.disk, Some(stamp), Some(stamp))
  }

  // ---------------------------------------------------------------------------
  // Properties of the reconciliation

  /** The cloud wins exactly when it has a timestamp and disk has none or an earlier one. */
  lemma CloudWinsIsLastWriterWins(diskTimestamp: Option<int>, cloudTimestamp: Option<int>)
    ensures CloudWins(diskTimestamp, cloudTimestamp) <==>
      cloudTimestamp.Some? && (diskTimestamp.None? || diskTimestamp.value < cloudTimestamp.value)
  {
    if diskTimestamp.Some? && cloudTimestamp.Some? {
      Extensions.DateLessIsStrictTotalOrder(diskTimestamp.value, cloudTimestamp.value, 0);
    }
  }

  /** As written, the cloud also wins when both timestamps are equal. */
  lemma CloudWinsAsWrittenOnTies(t: int)
    ensures CloudWinsAsWritten(Some(t), Some(t))
    ensures !CloudWins(Some(t), Some(t))
  {
    Extensions.DateLessAsWrittenHoldsOnTies(t);
    Extensions.DateLessIsStrictTotalOrder(t, t, t);
  }

  /** The winning timestamp is the later of the two, the only one present, or `now`. */
  lemma MostRecentIsLatest(diskTimestamp: Option<int>, cloudTimestamp: Option<int>, now: int)
    ensures diskTimestamp.Some? && cloudTimestamp.Some? ==>
      MostRecent(diskTimestamp, cloudTimestamp, now) ==
        if diskTimestamp.value >= cloudTimestamp.value then diskTimestamp.value else cloudTimestamp.value
    ensures diskTimestamp.Some? && cloudTimestamp.None? ==> MostRecent(diskTimestamp, cloudTimestamp, now) == diskTimestamp.value
    ensures diskTimestamp.None? && cloudTimestamp.Some? ==> MostRecent(diskTimestamp, cloudTimestamp, now) == cloudTimestamp.value
    ensures diskTimestamp.None? && cloudTimestamp.None? ==> MostRecent(diskTimestamp, cloudTimestamp, now) == now
  {
    CloudWinsIsLastWriterWins(diskTimestamp, cloudTimestamp);
  }

  /**
   * After reconciliation every entry of the winning side is on both sides,
   * the winning side itself is unchanged, entries only the losing side had
   * survive, and both sides carry the winning timestamp.
   */
  lemma ReconciledMergesWinnerIntoLoser<V>(s: Storage<V>, now: int)
    ensures var r := Reconciled(s, now);
      var cloudWon := CloudWins(s.diskTimestamp, s.cloudTimestamp);
      var (winner, loser) := if cloudWon then (s.cloud, s.disk) else (s.disk, s.cloud);
      var (winnerAfter, loserAfter) := if cloudWon then (r.cloud, r.disk) else (r.disk, r.cloud);
      && winnerAfter == winner
      && loserAfter.Keys == loser.Keys + winner.Keys
      && (forall k :: k in winner ==> loserAfter[k] == winner[k])
      && (forall k :: k in loser && k !in winner ==> loserAfter[k] == loser[k])
      && r.diskTimestamp == r.cloudTimestamp == Some(MostRecent(s.diskTimestamp, s.cloudTimestamp, now))
  {
  }

  /** After one reconciliation the timestamps tie, so a second one copies disk to the cloud and leaves disk alone. */
  lemma ReconcilingAgainKeepsDisk<V>(s: Storage<V>, now: int, later: int)
    ensures Reconciled(Reconciled(s, now), later).disk == Reconciled(s, now).disk
    ensures Reconciled(Reconciled(s, now), later).cloud.Keys >= Reconciled(s, now).disk.Keys
  {
    var r := Reconciled(s, now);
    CloudWinsAsWrittenOnTies(r.diskTimestamp.value);
  }

  /** `solveDiskCloudCollision` as written, deciding with the non-strict NSDate `<`. */
  function ReconciledAsWritten<V>(s: Storage<V>, now: int): (r: Storage<V>)
    ensures CloudWinsAsWritten(s.diskTimestamp, s.cloudTimestamp) ==> r.disk == s.disk + s.cloud && r.cloud == s.cloud
    ensures !CloudWinsAsWritten(s.diskTimestamp, s.cloudTimestamp) ==> r.disk == s.disk && r.cloud == s.cloud + s.disk
  {
    var cloudWon := CloudWinsAsWritten(s.diskTimestamp, s.cloudTimestamp);
    var stamp := if s.cloudTimestamp.None? then s.diskTimestamp.GetOr(now)
      else if cloudWon then s.cloudTimestamp.value else s.diskTimestamp.value;
    if cloudWon then
      Storage(s.disk + s.cloud, s.cloud, Some(stamp), Some(stamp))
    else
      Storage(s.disk, s.cloud + s.disk, Some(stamp), Some(stamp))
  }

  /**
   * Reconciling twice, starting with a newer disk: the first run copies disk
   * into the cloud and ties the stamps. On the tie the written order then
   * copies the cloud's extra entry into disk, while the strict order leaves
   * disk without it.
   */
  lemma ReconcilingTwiceAsWrittenDiffers()
    ensures var s := Storage(map[], map["c" := 1], Some(5), Some(3));
      && ReconciledAsWritten(ReconciledAsWritten(s, 0), 0).disk == map["c" := 1]
      && Reconciled(Reconciled(s, 0), 0).disk == map[]
  {
    var s := Storage(map[], map["c" := 1], Some(5), Some(3));
    CloudWinsIsLastWriterWins(s.diskTimestamp, s.cloudTimestamp);
    assert !Extensions.DateLessAsWritten(5, 3);
    var once := ReconciledAsWritten(s, 0);
    assert once.diskTimestamp == once.cloudTimestamp == Some(5);
    CloudWinsAsWrittenOnTies(5);
    assert map[] + map["c" := 1] == map["c" := 1];
  }

  /** Disk stamped before the cloud: the cloud wins under the corrected order and under the written one. */
  lemma SyncedStampsFavourCloud(now: int, cloudNow: int)
    requires now < cloudNow
    ensures CloudWins(Some(now), Some(cloudNow)) && CloudWinsAsWritten(Some(now), Some(cloudNow))
  {
    CloudWinsIsLastWriterWins(Some(now), Some(cloudNow));
  }

  /**
   * The reconciliation that follows a syncing write (disk stamped at `now`,
   * the cloud at the later `cloudNow`): the cloud wins, its entries are
   * written over disk, the cloud itself is unchanged (entries only disk has
   * stay off it), and both sides carry the cloud's timestamp. Both date
   * orders agree here.
   */
  lemma ReconcileAfterSyncingWrite<V>(s: Storage<V>, now: int, cloudNow: int, later: int)
    requires s.diskTimestamp == Some(now) && s.cloudTimestamp == Some(cloudNow) && now < cloudNow
    ensures Reconciled(s, later) == Storage(s.disk + s.cloud, s.cloud, Some(cloudNow), Some(cloudNow))
    ensures CloudWinsAsWritten(s.diskTimestamp, s.cloudTimestamp) == CloudWins(s.diskTimestamp, s.cloudTimestamp)
  {
    SyncedStampsFavourCloud(now, cloudNow);
  }

  // ---------------------------------------------------------------------------
  // The store

  class UserDefaultsStore<V> {
    var iCloudSync: bool
    var disk: map<string, V>
    var cloud: map<string, V>
    var diskTimestamp: Option<int>
    var cloudTimestamp: Option<int>

    ghost function Contents(): Storage<V>
      reads this
    {
      Storage(disk, cloud, diskTimestamp, cloudTimestamp)
    }

    /** Opens a store over existing disk and cloud contents; turning sync on reconciles them. */
    constructor (iCloudSync: bool, initial: Storage<V>, now: int)
      ensures this.iCloudSync == iCloudSync
      ensures Contents() == if iCloudSync then Reconciled(initial, now) else initial
    {
      this.iCloudSync := iCloudSync;
      disk := initial.disk;
      cloud := initial.cloud;
      diskTimestamp := initial.diskTimestamp;
      cloudTimestamp := initial.cloudTimestamp;
      new;
      SolveDiskCloudCollision(now);
    }

    /** Setting `iCloudSync` (its observer re-runs the cloud setup, which reconciles when sync is on). */
    method SetICloudSync(value: bool, now: int)
      modifies this
      ensures iCloudSync == value
      ensures Contents() == if value then Reconciled(old(Contents()), now) else old(Contents())
    {
      iCloudSync := value;
      SolveDiskCloudCollision(now);
    }

    method SolveDiskCloudCollision(now: int)
      modifies this
      ensures iCloudSync == old(iCloudSync)
      ensures Contents() == if iCloudSync then Reconciled(old(Contents()), now) else old(Contents())
    {
      if !iCloudSync {
        return;
      }
      var useCloud: bool;
      var mostRecentTimestamp: int;
      if cloudTimestamp.None? {
        useCloud := false;
        mostRecentTimestamp := diskTimestamp.GetOr(now);
      } else if diskTimestamp.None? {
        useCloud := true;
        mostRecentTimestamp := cloudTimestamp.GetOr(now);
      } else {
        useCloud := Extensions.DateLess(diskTimestamp.value, cloudTimestamp.value);
        mostRecentTimestamp := if useCloud then cloudTimestamp.value else diskTimestamp.value;
      }
      if useCloud {
        disk := CopyEntries(cloud, disk);
      } else {
        cloud := CopyEntries(disk, cloud);
      }
      diskTimestamp := Some(mostRecentTimestamp);
      cloudTimestamp := Some(mostRecentTimestamp);
    }

    /** A cloud change notification: reconciles on server, initial-sync and account changes only. */
    /**
     * By the time the notification arrives, the server or another device has
     * already rewritten the cloud store: `serverCloud` and `serverTimestamp`
     * are its contents and timestamp entry. They are installed first, and the
     * reconciliation then reads them.
     */
    method ICloudStorageChanged(reason: int, serverCloud: map<string, V>, serverTimestamp: Option<int>, now: int)
      modifies this
      ensures iCloudSync == old(iCloudSync)
      ensures Contents() ==
        var external := old(Contents()).(cloud := serverCloud, cloudTimestamp := serverTimestamp);
        if ReconcilesOn(reason) && iCloudSync then Reconciled(external, now) else external
    {
      cloud := serverCloud;
      cloudTimestamp := serverTimestamp;
      if reason == ServerChange || reason == InitialSyncChange || reason == AccountChange {
        SolveDiskCloudCollision(now);
      }
    }

    method SetObjectOnDisk(value: V, key: UDKey<V>, now: int)
      modifies this
      ensures Contents() == old(Contents()).(
        disk := old(disk)[key.name := value],
        diskTimestamp := if key.iCloudSync then Some(now) else old(diskTimestamp))
      ensures iCloudSync == old(iCloudSync)
    {
      disk := disk[key.name := value];
      if key.iCloudSync {
        diskTimestamp := Some(now);
      }
    }

    method SetObjectOnCloud(value: V, key: UDKey<V>, now: int)
      modifies this
      ensures Contents() == if iCloudSync && key.iCloudSync then
        old(Contents()).(cloud := old(cloud)[key.name := value], cloudTimestamp := Some(now))
        else old(Contents())
      ensures iCloudSync == old(iCloudSync)
    {
      if iCloudSync && key.iCloudSync {
        cloud := cloud[key.name := value];
        cloudTimestamp := Some(now);
      }
    }

    predicate Exists(key: UDKey<V>)
      reads this
    {
      key.name in disk
    }

    /** The stored value, or the key's default when nothing is stored under its name. */
    function Get(key: UDKey<V>): (r: V)
      reads this
      ensures Exists(key) ==> r == disk[key.name]
      ensures !Exists(key) ==> r == key.defaultValue
    {
      if Exists(key) then disk[key.name] else key.defaultValue
    }

    /**
     * Writes to disk, and to the cloud when both the store and the key sync.
     * The clock is read once per side: `now` stamps disk and the later
     * `cloudNow` stamps the cloud, so after a syncing write the cloud is the
     * newer side under either date order.
     */
    method Set(key: UDKey<V>, value: V, now: int, cloudNow: int)
      requires now < cloudNow
      modifies this
      ensures Exists(key) && Get(key) == value
      ensures disk == old(disk)[key.name := value]
      ensures diskTimestamp == if key.iCloudSync then Some(now) else old(diskTimestamp)
      ensures iCloudSync && key.iCloudSync ==> cloud == old(cloud)[key.name := value] && cloudTimestamp == Some(cloudNow)
      ensures !(iCloudSync && key.iCloudSync) ==> cloud == old(cloud) && cloudTimestamp == old(cloudTimestamp)
      ensures iCloudSync && key.iCloudSync ==>
        CloudWins(diskTimestamp, cloudTimestamp) && CloudWinsAsWritten(diskTimestamp, cloudTimestamp)
      ensures iCloudSync == old(iCloudSync)
    {
      SetObjectOnDisk(value, key, now);
      SetObjectOnCloud(value, key, cloudNow);
      SyncedStampsFavourCloud(now, cloudNow);
    }

    /** Get, apply `block`, set: the stored value becomes `block` of the previous value or default. */
    method Change(key: UDKey<V>, block: V -> V, now: int, cloudNow: int)
      requires now < cloudNow
      modifies this
      ensures Exists(key) && Get(key) == block(old(Get(key)))
      ensures disk == old(disk)[key.name := block(old(Get(key)))]
      ensures diskTimestamp == if key.iCloudSync then Some(now) else old(diskTimestamp)
      ensures iCloudSync && key.iCloudSync ==> cloud == old(cloud)[key.name := block(old(Get(key)))] && cloudTimestamp == Some(cloudNow)
      ensures !(iCloudSync && key.iCloudSync) ==> cloud == old(cloud) && cloudTimestamp == old(cloudTimestamp)
      ensures iCloudSync && key.iCloudSync ==>
        CloudWins(diskTimestamp, cloudTimestamp) && CloudWinsAsWritten(diskTimestamp, cloudTimestamp)
      ensures iCloudSync == old(iCloudSync)
    {
      var v := Get(key);
      v := block(v);
      Set(key, v, now, cloudNow);
    }

    /** Deletes the key on disk, and in the cloud when both the store and the key sync; stamped like Set. */
    method Remove(key: UDKey<V>, now: int, cloudNow: int)
      requires now < cloudNow
      modifies this
      ensures !Exists(key) && Get(key) == key.defaultValue
      ensures disk == old(disk) - {key.name}
      ensures diskTimestamp == if key.iCloudSync then Some(now) else old(diskTimestamp)
      ensures iCloudSync && key.iCloudSync ==> cloud == old(cloud) - {key.name} && cloudTimestamp == Some(cloudNow)
      ensures !(iCloudSync && key.iCloudSync) ==> cloud == old(cloud) && cloudTimestamp == old(cloudTimestamp)
      ensures iCloudSync && key.iCloudSync ==>
        CloudWins(diskTimestamp, cloudTimestamp) && CloudWinsAsWritten(diskTimestamp, cloudTimestamp)
      ensures iCloudSync == old(iCloudSync)
    {
      disk := disk - {key.name};
      if key.iCloudSync {
        diskTimestamp := Some(now);
      }
      if iCloudSync && key.iCloudSync {
        cloud := cloud - {key.name};
        cloudTimestamp := Some(cloudNow);
      }
      SyncedStampsFavourCloud(now, cloudNow);
    }
  }

  /** The copy loop of the reconciliation: every entry of `source` is written into `target`. */
  method CopyEntries<V>(source: map<string, V>, target: map<string, V>) returns (r: map<string, V>)
    ensures r == target + source
  {
    r := target;
    var keys := source.Keys;
    while keys != {}
      invariant keys <= source.Keys
      invariant r.Keys == target.Keys + (source.Keys - keys)
      invariant forall k :: k in r ==> r[k] == if k in source && k !in keys then source[k] else target[k]
      decreases keys
    {
      var k :| k in keys;
      r := r[k := source[k]];
      keys := keys - {k};
    }
    assert r == target + source;
  }

  // ---------------------------------------------------------------------------
  // Dictionary from a list of pairs

  /** The Dictionary initializer over (key, value) pairs: later pairs overwrite earlier ones. */
  method MapFromPairs<K, W>(pairs: seq<(K, W)>) returns (m: map<K, W>)
    ensures forall k :: k in m <==> exists i :: 0 <= i < |pairs| && pairs[i].0 == k
    ensures forall i :: 0 <= i < |pairs| && (forall j :: i < j < |pairs| ==> pairs[j].0 != pairs[i].0) ==>
      m[pairs[i].0] == pairs[i].1
  {
    m := map[];
    for n := 0 to |pairs|
      invariant forall k :: k in m <==> exists i :: 0 <= i < n && pairs[i].0 == k
      invariant forall i :: 0 <= i < n && (forall j :: i < j < n ==> pairs[j].0 != pairs[i].0) ==>
        m[pairs[i].0] == pairs[i].1
    {
      m := m[pairs[n].0 := pairs[n].1];
    }
  }
}
