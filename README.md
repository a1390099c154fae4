# SwiftUtils bookkeeping core, modelled in Dafny

This project models the four stateful and string-handling parts of the
SwiftUtils library and proves properties about them:

- **Events** (`event.dfy`, from `SwiftUtils/Event.swift`). An `Event<T>` keeps an
  ordered list of `EventListener<T>`s, and firing it dispatches data to every live
  listener. Each listener runs a small state machine:
  - a weakly held listening object;
  - an optional filter;
  - an accumulator over the data it saved last;
  - a fire count and an optional limit that cancels the listener.

  Both are Dafny classes whose methods update their fields. A listener's fields
  are mirrored by the value `ListenerState`, and one dispatch is the pure function
  `DispatchStep`. The lemmas about series of dispatches are stated on
  `DispatchStep`.
- **Notifications** (`notification_center.dfy`, from `SwiftUtils/NotificationCenter.swift`).
  - The notification centre maps each notification key to a list of
    `NotificationObserver`s.
  - `observe` appends an observer.
  - Each removal searches a list for the last matching entry and deletes it.
  - An observer decides what to do with a posted notification: ignore it, remove
    itself, or run its block. It counts deliveries and removes itself at its limit.
- **User defaults** (`user_defaults.dfy`, from `SwiftUtils/UserDefaults.swift`). This is a
  typed preference store on disk, mirrored to a cloud store for keys that sync.
  - Each side carries the timestamp of its last synced change.
  - Reconciliation copies the side with the later timestamp into the other.
  - Values are opaque, dates are integers, and the clock is a `now` parameter.
- **Extensions** (`extensions.dfy`, `percent_coding.dfy`, `utf8.dfy`, from `SwiftUtils/Extensions.swift`):
  - `NSURL.queryDictionary`, which splits a URL's query component (RFC 3986
    section 3.4) on `&` and `=`;
  - form decoding and encoding: `+` as a space (HTML 4.01 section 17.13.4.1),
    then percent-coding (RFC 3986 section 2.1) over UTF-8 (RFC 3629);
  - `split`, the string subscripts, `Int(String)`, `Bool(String)` and the
    comparison of dates.

`wrappers.dfy` holds `Option`. `collections.dfy` holds the sequence helpers that
the listener and observer lists share: distinctness, last index and removal at
an index.

## Model

| member | source | states |
|---|---|---|
| `Events.EventListener.constructor` | SwiftUtils/Event.swift:79-82 | A new listener holds its listening object and callback. It has fire count 0, no saved data, the newest-value accumulator, no filter, no limit and no deliveries. |
| `Events.EventListener.Dispatch` | SwiftUtils/Event.swift:84-119 | The listener's new state is exactly `DispatchStep` of its old state (see `DispatchOutcome` for what that means). |
| `Events.EventListener.CallWithData` | SwiftUtils/Event.swift:121-127 | The callback is invoked once with the given data. Nothing else about the listener changes. |
| `Events.EventListener.MaxFireCount` | SwiftUtils/Event.swift:129-132 | Sets the limit and returns the listener itself, leaving every other field alone. |
| `Events.EventListener.Once` | SwiftUtils/Event.swift:133-136 | Sets the limit to 1 and returns the listener itself. |
| `Events.EventListener.Forever` | SwiftUtils/Event.swift:137-140 | Clears the limit and returns the listener itself. |
| `Events.EventListener.Filter` | SwiftUtils/Event.swift:142-145 | Installs the filter and returns the listener itself. |
| `Events.EventListener.Accumulate` | SwiftUtils/Event.swift:154-157 | Installs the accumulator and returns the listener itself. |
| `Events.EventListener.Reset` | SwiftUtils/Event.swift:159-161 | Clears the saved data, so the next accepted dispatch delivers its own data, whatever the accumulator is. |
| `Events.EventListener.Cancel` | SwiftUtils/Event.swift:162-164 | Drops the listening object, and no series of later dispatches changes the listener again. |
| `Events.Accepts` | SwiftUtils/Event.swift:85-89 | A dispatch gets through exactly when the listening object is still there and the filter, if any, accepts the data; its cases are stated by `DispatchOutcome`. |
| `Events.DispatchStep` | SwiftUtils/Event.swift:84-119 | One non-delayed dispatch on the listener's fields as a value: unchanged when not accepted; otherwise the accumulated value is saved, delivered and counted, and the listener is cancelled at its limit. `DispatchOutcome` and the lemmas after it state its effect. |
| `Events.DispatchOutcome` | SwiftUtils/Event.swift:84-96 | A dispatch with no listening object, or one the filter rejects, changes nothing. An accepted dispatch calls back once with `accumulator(saved, new)` (or with the new data when nothing is saved), saves that value and adds one to the count. It cancels the listener exactly when the count reaches the limit. |
| `Events.DeliversNewestData` | SwiftUtils/Event.swift:73 | With the default accumulator, or with no saved data, the callback receives the data that just arrived. |
| `Events.FireCountMatchesDeliveries` | SwiftUtils/Event.swift:111-118 | Over any series of dispatches, every callback comes with exactly one increment of the fire count, and callbacks are never taken back. |
| `Events.CancelledStaysSilent` | SwiftUtils/Event.swift:85 | A listener without a listening object is left unchanged by any series of dispatches: no callback, no count. |
| `Events.MaxFireCountBound` | SwiftUtils/Event.swift:115-118 | With limit `m`, a listener at count `f` calls back at most max(1, m - f) more times, however often the event fires. |
| `Events.OnceCallsBackAtMostOnce` | SwiftUtils/Event.swift:133-136 | After `once()`, a listener starting from a non-negative count calls back at most once over any series of dispatches. |
| `Events.LiveOnly` | SwiftUtils/Event.swift:19-21 | The filtered list holds exactly the listeners whose listening object is still there, and it is no longer than the original. |
| `Events.LiveOnlyConcat` | SwiftUtils/Event.swift:19-21 | Filtering preserves order: the live part of `a + b` is the live part of `a` followed by the live part of `b`. |
| `Events.LiveOnlyOfLive` | SwiftUtils/Event.swift:46 | A list whose listeners are all alive is unchanged by filtering. |
| `Events.LiveOnlyDistinct` | SwiftUtils/Event.swift:19-21 | Filtering keeps a list free of duplicate listeners. |
| `Events.LiveOwners` | SwiftUtils/Event.swift:13-17 | The listening objects of the live listeners, in registration order. An object appears exactly when some listener is listened to by it. |
| `Events.OwnedBy` | SwiftUtils/Event.swift:49-54 | As written, the `removeListener` filter keeps exactly the listeners whose listening object IS the argument. |
| `Events.NotOwnedBy` | SwiftUtils/Event.swift:49-54 | The corrected filter keeps exactly the live listeners listened to by some other object. |
| `Events.RemoveListenerAsWrittenKeepsTheWrongOnes` | SwiftUtils/Event.swift:49-54 | Take a listener of `o` and a listener of another object. As written, removing `o` keeps only `o`'s listener; the corrected removal keeps only the other. |
| `Events.Event.constructor` | SwiftUtils/Event.swift:10-12 | A new event has no listeners and fire count 0. |
| `Events.Event.Listeners` | SwiftUtils/Event.swift:13-17 | Returns exactly the listening objects of the registered listeners, and no more entries than there are listeners. |
| `Events.Event.FilterCancelledListeners` | SwiftUtils/Event.swift:19-21 | The list becomes its live part, in order, still without duplicates. The fire count is unchanged. |
| `Events.Event.AddListener` | SwiftUtils/Event.swift:22-26 | The surviving live listeners keep their order and the new listener is appended last. The listener is returned. |
| `Events.Event.Listen` | SwiftUtils/Event.swift:28-36 | The three `listen` overloads. A fresh listener in its initial state, with the given callback kind, is appended after the live listeners. |
| `Events.DispatchEach` | SwiftUtils/Event.swift:42-44 | Every listener of a duplicate-free list is advanced by one `DispatchStep` of the data. |
| `Events.Event.Fire` | SwiftUtils/Event.swift:38-47 | The event's fire count goes up by exactly one. Every listener that was live is advanced by `DispatchStep`, and every other listener is untouched. Afterwards the list is the live part of the live listeners, holds no cancelled entry, and `Listeners()` has one entry per listener. |
| `Events.Event.RemoveListenerAsWritten` | SwiftUtils/Event.swift:49-54 | As written: the list becomes `OwnedBy(list, listener)`. |
| `Events.Event.RemoveListener` | SwiftUtils/Event.swift:49-54 | Corrected: the list becomes `NotOwnedBy(list, listener)`, so the argument is no longer among `Listeners()`. |
| `Events.Event.RemoveAllListeners` | SwiftUtils/Event.swift:55-57 | The list is empty and `Listeners()` is empty. |
| `Collections.LastIndexOf` | SwiftUtils/NotificationCenter.swift:26-29 | The search loop's `index`: the last position holding the element (no later position holds it), or none exactly when the element is absent. |
| `Collections.RemoveAt` | SwiftUtils/NotificationCenter.swift:31-33 | `removeAtIndex` when an index was found: one element fewer, and the elements before and after the index keep their relative order. With no index, the list is unchanged. |
| `Collections.RemoveAtMultiset` | SwiftUtils/NotificationCenter.swift:31-33 | Removal at an index takes out exactly that one element. |
| `Collections.RemoveAtDistinct` | SwiftUtils/NotificationCenter.swift:31-33 | Removal keeps a list duplicate-free, takes the removed element out entirely, and adds nothing. |
| `Notifications.DecisionCases` | SwiftUtils/NotificationCenter.swift:105-118 | With a sender set, a notification with no sender or another sender is ignored. The observer removes itself exactly when the sender matches and the observed object is gone. The block runs exactly when the sender matches, the observed object is there, a block is set and the filter accepts. |
| `Notifications.Decide` | SwiftUtils/NotificationCenter.swift:105-118 | The handler's choice between ignoring the notification, removing the observer and running the block; `DecisionCases` states each outcome's exact condition. |
| `Notifications.ReleasedObserverRemovesItself` | SwiftUtils/NotificationCenter.swift:110-118 | Once the observed object is gone, every notification from an accepted sender makes the observer remove itself. |
| `Notifications.ReceiveAll` | SwiftUtils/NotificationCenter.swift:103-127 | The observer after a series of notifications while it stays registered. It stops at the first self-removal and at the delivery that reaches the limit; its run-level properties are `OnceDeliversAtMostOnce` and `ForeverDeliversEveryPost`. |
| `Notifications.OnceDeliversAtMostOnce` | SwiftUtils/NotificationCenter.swift:121-126 | After `once()`, from a non-negative count, the block runs at most once over any series of notifications. |
| `Notifications.ForeverDeliversEveryPost` | SwiftUtils/NotificationCenter.swift:162-165 | Take an observer with no limit, no sender, a live observed object, a block and an accept-all filter. Over any series of notifications it runs the block once per notification, in order, and counts each run. |
| `Notifications.LastIndexObservedBy` | SwiftUtils/NotificationCenter.swift:38-43 | The last position whose live observed object is the argument; none when no entry observes it. |
| `Notifications.Dumped` | SwiftUtils/NotificationCenter.swift:23-34 | `dumpNotificationObserver` touches only the observer's own key. That list loses at most one entry, and no key disappears. |
| `Notifications.WithoutObserver` | SwiftUtils/NotificationCenter.swift:35-48 | `remove(observer:forKey:)` touches only the given key. That list loses at most one entry, and no key disappears. |
| `Notifications.DumpedIsGone` | SwiftUtils/NotificationCenter.swift:23-34 | In a duplicate-free list, a dumped observer is no longer registered for its key. |
| `Notifications.NotificationObserver.constructor` | SwiftUtils/NotificationCenter.swift:88-91 | A new observer has its key, its observed object, fire count 0, no sender, no block, the accept-all filter and no limit. |
| `Notifications.NotificationObserver.Receive` | SwiftUtils/NotificationCenter.swift:105-118 | The registered handler. When the decision is to ignore, nothing changes. When it is to remove itself, the observer is dumped from the centre. When it is to deliver, the observer is `Fired` and is dumped exactly when the limit is reached. Keys never disappear. |
| `Notifications.NotificationObserver.Dispatch` | SwiftUtils/NotificationCenter.swift:123-129 | Runs the block once and adds one to the count. It removes the observer from the centre exactly when the count reaches the limit, after which the observer is not in its key's list. |
| `Notifications.NotificationObserver.SetSender` | SwiftUtils/NotificationCenter.swift:131-135 | Sets the sender and returns the observer itself. |
| `Notifications.NotificationObserver.ObservedObjectReleased` | SwiftUtils/NotificationCenter.swift:78 | The weakly held observed object is deallocated: `observer` becomes nil and nothing else changes. |
| `Notifications.NotificationObserver.SetBlock` | SwiftUtils/NotificationCenter.swift:137-141 | Sets a block and returns the observer itself. |
| `Notifications.NotificationObserver.Filter` | SwiftUtils/NotificationCenter.swift:149-152 | Installs the filter and returns the observer itself. |
| `Notifications.NotificationObserver.MaxFireCount` | SwiftUtils/NotificationCenter.swift:154-157 | Sets the limit and returns the observer itself. |
| `Notifications.NotificationObserver.Once` | SwiftUtils/NotificationCenter.swift:158-161 | Sets the limit to 1. |
| `Notifications.NotificationObserver.Forever` | SwiftUtils/NotificationCenter.swift:162-165 | Clears the limit. |
| `Notifications.NotificationObserver.Remove` | SwiftUtils/NotificationCenter.swift:167-169 | The centre's table becomes `Dumped(table, this)` and the observer is no longer in its key's list. |
| `Notifications.NotificationCenter.constructor` | SwiftUtils/NotificationCenter.swift:21 | The table starts empty. |
| `Notifications.NotificationCenter.DumpNotificationObserver` | SwiftUtils/NotificationCenter.swift:23-34 | The search loop finds the last entry identical to the observer, and exactly that entry is removed from its key's list. The table stays keyed and duplicate-free. |
| `Notifications.NotificationCenter.RemoveObserver` | SwiftUtils/NotificationCenter.swift:35-48 | The private search-and-remove, which the public two-argument `remove` calls directly. Exactly the last entry observing the argument is removed from that key's list, and the other lists are unchanged. |
| `Notifications.NotificationCenter.Observe` | SwiftUtils/NotificationCenter.swift:50-57 | A fresh observer is appended at the end of the key's list, which is created empty first when the key is absent. Other keys are unchanged, and the observer has the key and fire count 0. |
| `Notifications.NotificationCenter.RemoveObserverEverywhere` | SwiftUtils/NotificationCenter.swift:66-70 | Every key's list loses exactly its last entry observing the argument, if any. The key set is unchanged. |
| `UserDefaults.LocalKey` | SwiftUtils/UserDefaults.swift:39-42 | The two-argument key initializer gives a key that does not sync to the cloud. |
| `UserDefaults.CloudWins` | SwiftUtils/UserDefaults.swift:131-144 | `useCloud` with the strict date order: false without a cloud timestamp, true when only the cloud has one, otherwise whether disk is strictly earlier (`CloudWinsIsLastWriterWins`). |
| `UserDefaults.CloudWinsAsWritten` | SwiftUtils/UserDefaults.swift:131-144 | `useCloud` as written, through the non-strict NSDate `<`; it differs from `CloudWins` only on equal timestamps (`CloudWinsAsWrittenOnTies`). |
| `UserDefaults.MostRecent` | SwiftUtils/UserDefaults.swift:131-144 | `mostRecentTimestamp`: the winner's timestamp, or `now` when neither side has one (`MostRecentIsLatest`). |
| `UserDefaults.Reconciled` | SwiftUtils/UserDefaults.swift:124-156 | Both storages after `solveDiskCloudCollision` with sync on: the winner's map written over the loser's and both stamped with `MostRecent` (`ReconciledMergesWinnerIntoLoser`). |
| `UserDefaults.CloudWinsIsLastWriterWins` | SwiftUtils/UserDefaults.swift:131-144 | The cloud wins exactly when it has a timestamp, and disk has none or a strictly earlier one. |
| `UserDefaults.CloudWinsAsWrittenOnTies` | SwiftUtils/UserDefaults.swift:142-143 | As written, equal timestamps make the cloud win; with the strict order they do not. |
| `UserDefaults.MostRecentIsLatest` | SwiftUtils/UserDefaults.swift:131-144 | The timestamp both sides end with is the later of the two, the only one present, or `now` when neither side has one. |
| `UserDefaults.ReconciledMergesWinnerIntoLoser` | SwiftUtils/UserDefaults.swift:146-152 | After reconciliation the winning map is unchanged. Every entry of the winning map is in the losing map with the winner's value, and entries only the loser had survive. Both timestamps are the winning timestamp. |
| `UserDefaults.ReconcilingAgainKeepsDisk` | SwiftUtils/UserDefaults.swift:124-156 | A second reconciliation after a first one leaves disk as it was and leaves every disk key in the cloud. |
| `UserDefaults.ReconciledAsWritten` | SwiftUtils/UserDefaults.swift:124-156 | As written, with the non-strict `<`: when the cloud wins, disk gets the cloud's entries and the cloud is unchanged; otherwise the cloud gets disk's entries and disk is unchanged. |
| `UserDefaults.ReconcilingTwiceAsWrittenDiffers` | SwiftUtils/UserDefaults.swift:124-156 | Disk newer than a cloud holding one extra key, reconciled twice: as written the extra key reaches disk on the second run, while the strict order leaves disk without it. |
| `UserDefaults.SyncedStampsFavourCloud` | SwiftUtils/UserDefaults.swift:171-182 | Disk stamped strictly before the cloud, as a syncing write leaves them: the cloud wins under the corrected and the as-written date order alike. |
| `UserDefaults.ReconcileAfterSyncingWrite` | SwiftUtils/UserDefaults.swift:124-182 | The reconciliation after a syncing write lets the cloud win under both orders: disk gets every cloud entry, the cloud is unchanged (keys only disk holds stay off it), and both sides carry the cloud's timestamp. |
| `UserDefaults.UserDefaultsStore.constructor` | SwiftUtils/UserDefaults.swift:94-97 | Opening a store reconciles the two storages when sync is on and leaves them alone otherwise. |
| `UserDefaults.UserDefaultsStore.SetICloudSync` | SwiftUtils/UserDefaults.swift:71 | Setting the flag reconciles when it becomes or stays true; otherwise nothing changes. |
| `UserDefaults.UserDefaultsStore.SolveDiskCloudCollision` | SwiftUtils/UserDefaults.swift:124-156 | A no-op when sync is off. Otherwise the storages become `Reconciled` of the old ones: `CopyEntries` writes every entry of the winner into the loser, then both timestamps are set. |
| `UserDefaults.CopyEntries` | SwiftUtils/UserDefaults.swift:146-149 | The copy loop: the result is the target map with every entry of the source map written over it. |
| `UserDefaults.UserDefaultsStore.ICloudStorageChanged` | SwiftUtils/UserDefaults.swift:157-168 | The cloud first holds what the server or another device wrote: the given map and timestamp. For the server-change, initial-sync and account-change reasons, with sync on, the store then reconciles disk against that new cloud. For any other reason disk is untouched. |
| `UserDefaults.UserDefaultsStore.SetObjectOnDisk` | SwiftUtils/UserDefaults.swift:171-174 | Writes the value under the key's name on disk. The disk timestamp becomes `now` only for a syncing key; the cloud is untouched. |
| `UserDefaults.UserDefaultsStore.SetObjectOnCloud` | SwiftUtils/UserDefaults.swift:176-182 | Writes the value and the cloud timestamp only when both the store and the key sync; otherwise nothing changes. |
| `UserDefaults.UserDefaultsStore.Exists` | SwiftUtils/UserDefaults.swift:263-265 | Whether disk holds an entry under the key's name; `Get` returns that entry exactly when it holds. |
| `UserDefaults.UserDefaultsStore.Get` | SwiftUtils/UserDefaults.swift:185-188 | The value stored on disk when the key exists, the key's default otherwise. |
| `UserDefaults.UserDefaultsStore.Set` | SwiftUtils/UserDefaults.swift:171-193 | Afterwards the key exists and `Get` returns the value. Disk always gets the value, and its timestamp becomes the first clock reading only for syncing keys. The cloud map changes, and its timestamp becomes the second, later reading, only when both flags are on; then the cloud wins the next reconciliation under either date order. |
| `UserDefaults.UserDefaultsStore.Change` | SwiftUtils/UserDefaults.swift:194-198 | Afterwards `Get` returns the block applied to the previous value, or to the default when there was none. Storage and timestamps change as for `Set` of that value, so after a syncing change the cloud wins the next reconciliation. |
| `UserDefaults.UserDefaultsStore.Remove` | SwiftUtils/UserDefaults.swift:266-275 | Afterwards the key does not exist and `Get` returns the default. The disk timestamp becomes the first clock reading only for syncing keys. The cloud entry is removed, and the cloud stamped with the second, later reading, only when both flags are on; then the cloud wins the next reconciliation. |
| `UserDefaults.MapFromPairs` | SwiftUtils/UserDefaults.swift:282-288 | The keys are exactly the keys of the pairs. Each key maps to the value of its last pair. |
| `Extensions.ReplaceChar` | SwiftUtils/Extensions.swift:13 | Same length; every occurrence of the character is replaced and every other character kept. |
| `Extensions.Split` | SwiftUtils/Extensions.swift:20-22 | At least one part, and no part contains the separator. |
| `Extensions.JoinSplit` | SwiftUtils/Extensions.swift:20-22 | Joining the parts with the separator gives the string back. |
| `Extensions.SplitJoin` | SwiftUtils/Extensions.swift:20-22 | Splitting the join of separator-free parts gives the parts back. |
| `Extensions.SplitAfterPart` | SwiftUtils/Extensions.swift:20-22 | A separator-free prefix followed by the separator becomes the first part. |
| `Extensions.SplitWithoutSeparator` | SwiftUtils/Extensions.swift:20-22 | A string without the separator is its own single part. |
| `Extensions.SplitCount` | SwiftUtils/Extensions.swift:20-22 | There is one more part than there are separators. |
| `Extensions.SplitHasTwoParts` | SwiftUtils/Extensions.swift:20-22 | There are at least two parts exactly when the separator occurs. |
| `Extensions.DecodeURLFormat` | SwiftUtils/Extensions.swift:12-14 | Every `+` read as a space, then percent-decoded; None for the force-unwrap trap. Its round trip and its plus handling are stated by `DecodeEncodeURLFormat`, `PlusComesBackAsSpace` and `DecodeURLFormatWithoutEscapes`. |
| `Extensions.EncodeURLFormat` | SwiftUtils/Extensions.swift:16-18 | As written: spaces become `+` and the rest is percent-escaped, so the result contains no space. |
| `Extensions.EncodeURLFormatEscapingPlus` | SwiftUtils/Extensions.swift:16-18 | Corrected: `+` is escaped before spaces are written as `+`. The result contains no space. |
| `Extensions.EncodeURLFormatLosesPlus` | SwiftUtils/Extensions.swift:12-18 | As written, decoding an encoding gives back the original with every `+` turned into a space. |
| `Extensions.PlusComesBackAsSpace` | SwiftUtils/Extensions.swift:16-18 | `"+"` comes back as `" "`. |
| `Extensions.DecodeEncodeURLFormat` | SwiftUtils/Extensions.swift:12-18 | Decoding the corrected encoding gives back every string. |
| `Extensions.DecodeURLFormatWithoutEscapes` | SwiftUtils/Extensions.swift:12-14 | Text without `%` decodes to itself, with each `+` read as a space. |
| `Extensions.CharAt` | SwiftUtils/Extensions.swift:24-26 | For an index within bounds, the string is the characters before the index, then the result, then the characters after it: the result is the i-th character. |
| `Extensions.CharStringAt` | SwiftUtils/Extensions.swift:28-30 | The one-character string of `CharAt`. |
| `Extensions.Substring` | SwiftUtils/Extensions.swift:32-34 | For a range within bounds, `end - start` characters, the k-th being the character at `start + k`. |
| `Extensions.SubstringsConcatenate` | SwiftUtils/Extensions.swift:32-34 | Adjacent ranges give adjacent substrings, and a one-wide range is the one-character subscript. |
| `Extensions.ParseInt` | SwiftUtils/Extensions.swift:43-48 | A result always lies within the 64-bit Int range and comes from text that holds a digit. |
| `Extensions.ParseShowInt` | SwiftUtils/Extensions.swift:43-48 | Every 64-bit Int is read back from its decimal numeral. |
| `Extensions.ParseIntSpellsInt` | SwiftUtils/Extensions.swift:43-48 | `Int(s)` is `v` exactly when `v` is a 64-bit Int and `s` is an optional sign, then zeros, then the numeral of the magnitude of `v`, with `-` for every negative value and for no positive one. |
| `Extensions.ParseBool` | SwiftUtils/Extensions.swift:50-55 | nil exactly when `Int(s)` is nil; otherwise true exactly when the integer is non-zero. |
| `Extensions.ParseBoolShowInt` | SwiftUtils/Extensions.swift:50-55 | The numeral of an Int reads as "is it non-zero". |
| `Extensions.EarlierDate` | SwiftUtils/Extensions.swift:83-85 | The earlier of two dates: one of them, and not later than either. |
| `Extensions.DateLessAsWritten` | SwiftUtils/Extensions.swift:83-85 | NSDate `<` as written, `a.earlierDate(b) == a`; it holds on equal dates (`DateLessAsWrittenHoldsOnTies`). |
| `Extensions.DateLess` | SwiftUtils/Extensions.swift:83-85 | The corrected strict `<`; `DateLessIsStrictTotalOrder` proves it a strict total order equal to `<` on timestamps. |
| `Extensions.DateLessAsWrittenHoldsOnTies` | SwiftUtils/Extensions.swift:83-85 | As written, every date is less than itself. |
| `Extensions.DateLessIsStrictTotalOrder` | SwiftUtils/Extensions.swift:83-85 | The corrected `<` is irreflexive, transitive and total on distinct dates, and it agrees with `<` on timestamps. |
| `Extensions.ReadPiece` | SwiftUtils/Extensions.swift:62-67 | One `&`-piece: skipped without `=`, otherwise its first two `=`-parts decoded as key and value, or the trap when either fails (`ReadPieceSkipsWithoutEquals`, `ReadPieceDropsAfterSecondEquals`). |
| `Extensions.ReadPieces` | SwiftUtils/Extensions.swift:61-67 | The pairs of all pieces in order, or None once a piece traps (`TrapPersists`, `OnePairPerPairedPiece`). |
| `Extensions.Group` | SwiftUtils/Extensions.swift:69-70 | The dictionary: each key's values appended in order (`GroupedValues`, `EveryKeyPresent`, `GroupTotal`). |
| `Extensions.QueryDictionary` | SwiftUtils/Extensions.swift:57-77 | Without a query the dictionary is empty. Otherwise the loop builds `Group` of the pairs read from the `&`-pieces, or yields None when a key or value fails to decode (the force-unwrap trap). |
| `Extensions.TrapPersists` | SwiftUtils/Extensions.swift:66-67 | Once a piece fails to decode, the whole query does. |
| `Extensions.ReadPieceSkipsWithoutEquals` | SwiftUtils/Extensions.swift:63-64 | A piece is skipped exactly when it has no `=`. |
| `Extensions.ReadPieceDropsAfterSecondEquals` | SwiftUtils/Extensions.swift:63-67 | In `k=v=w`, only `k` and `v` are used; the text after the second `=` is dropped. |
| `Extensions.GroupedValues` | SwiftUtils/Extensions.swift:69-70 | A key is in the dictionary exactly when some pair has it, and its list is the values of its pairs in order of appearance. |
| `Extensions.EveryKeyPresent` | SwiftUtils/Extensions.swift:69-70 | Every key of a pair maps to a non-empty list. |
| `Extensions.GroupTotal` | SwiftUtils/Extensions.swift:69-70 | The dictionary holds as many values as there are pairs. |
| `Extensions.OnePairPerPairedPiece` | SwiftUtils/Extensions.swift:62-64 | Without a trap, there is one pair for each piece that holds an `=`. |
| `PercentCoding.HexValue` | SwiftUtils/Extensions.swift:13 | A hexadecimal digit's value is below 16; `%`, space and `+` are not digits. |
| `PercentCoding.HexDigit` | SwiftUtils/Extensions.swift:17 | The digit written for n reads back as n. |
| `PercentCoding.EscapeByte` | SwiftUtils/Extensions.swift:17 | A byte is escaped as three characters starting with `%`. |
| `PercentCoding.PercentDecode` | SwiftUtils/Extensions.swift:13 | `stringByReplacingPercentEscapesUsingEncoding` with UTF-8: each `%XX` is a byte, each run of bytes must be UTF-8; None on a malformed escape or bytes that are not UTF-8 (`DecodeEncode`, `DecodeEscapedBytes`, `TrailingPercentRejected`). |
| `PercentCoding.PercentEncode` | SwiftUtils/Extensions.swift:17 | `stringByAddingPercentEscapesUsingEncoding` with UTF-8: characters outside the kept set are written as their UTF-8 bytes in `%XX` form (`DecodeEncode`, `EncodeWritesNoSpace`). |
| `PercentCoding.DecodeEncodeUnits` | SwiftUtils/Extensions.swift:12-18 | Decoding undoes any per-character encoding whose literals are not `%`. |
| `PercentCoding.DecodeEncode` | SwiftUtils/Extensions.swift:12-18 | Percent-decoding undoes percent-escaping for every string. |
| `PercentCoding.DecodeWithoutEscapes` | SwiftUtils/Extensions.swift:13 | A string without `%` decodes to itself. |
| `PercentCoding.TrailingPercentRejected` | SwiftUtils/Extensions.swift:13 | A string ending in `%` is malformed (the force-unwrap traps). |
| `PercentCoding.LoneContinuationRejected` | SwiftUtils/Extensions.swift:13 | `%80` is not UTF-8 and is rejected. |
| `PercentCoding.DecodeEscapedBytes` | SwiftUtils/Extensions.swift:13 | A string made only of `%XX` escapes decodes exactly as its bytes decode as UTF-8, failing exactly when they are not UTF-8. |
| `PercentCoding.DecodeFullyEscaped` | SwiftUtils/Extensions.swift:12-18 | Escaping every byte of a string's UTF-8 encoding and decoding the result gives the string back. |
| `PercentCoding.DecodeCharFirstFour` | SwiftUtils/Extensions.swift:13 | Decoding one character looks at no more than the first four bytes. |
| `PercentCoding.EncodeWritesNoSpace` | SwiftUtils/Extensions.swift:17 | Percent-escaping never writes a space. |
| `Utf8.EncodedLength` | SwiftUtils/Extensions.swift:17 | A character takes 1 to 4 bytes. |
| `Utf8.EncodeChar` | SwiftUtils/Extensions.swift:17 | Encodes a character as a lead byte followed by continuation bytes, as many as `EncodedLength`. |
| `Utf8.LeadLength` | SwiftUtils/Extensions.swift:13 | At most 4, and 1 exactly for ASCII bytes. |
| `Utf8.DecodeChar` | SwiftUtils/Extensions.swift:13 | A decoded character used between 1 and the available bytes, exactly its own encoded length. |
| `Utf8.DecodeEncodeChar` | SwiftUtils/Extensions.swift:12-18 | The encoding of a character decodes back to it, whatever bytes follow. |
| `Utf8.Encode` | SwiftUtils/Extensions.swift:17 | A string encodes to at least as many bytes as it has characters. |
| `Utf8.Decode` | SwiftUtils/Extensions.swift:13 | A decoded string has no more characters than there were bytes. |
| `Utf8.DecodeEncode` | SwiftUtils/Extensions.swift:12-18 | RFC 3629 round trip: decoding the encoding of a string gives the string. |
| `Utf8.StrayContinuationRejected` | SwiftUtils/Extensions.swift:13 | A byte sequence that starts with a continuation byte is not text. |

## Left out

- The `delay` path of `EventListener.dispatch` and the `delay(_:)` setter (SwiftUtils/Event.swift:97-110, 147-150). They are asynchronous and timer-driven.
- Events.EventListener.CallWithData: the callback is recorded in `deliveries` rather than run. A callback that re-enters the event or the listener (for example, cancels it from inside) is not modelled.
- Events.Event.AddListener: requires that the listener is not already in the list. The source only ever passes a freshly made listener.
- Weak references are fields of type `object?`.
  - Event listeners: ARC deallocation of the listening object is not a separate operation. `EventListener.owner` becomes null only through `Cancel` and through the limit, which write the same nil that deallocation would.
  - Notification observers: `NotificationObserver.ObservedObjectReleased` models the observed object's deallocation, the only way `observer` becomes null. `SetSender(null)` clears `sender`. Reaching the limit takes the observer out of the centre and nulls nothing.
  - Deallocation of a weakly held sender is not modelled.
- Notifications.ReceiveAll: the run stops when the observer leaves the centre. A caller that keeps its own strong reference to a removed observer keeps it registered with the platform, so its block could run again; this is not modelled.
- Fire counts are unbounded integers; Swift's trap on `Int` overflow of `fireCount++` is not modelled.
- The global `NotificationCenter` singleton is an explicit `NotificationCenter` object, which each observer holds as `center`.
- Not modelled, being platform plumbing:
  - `post`;
  - `reloadNotification`, with its registration with NSNotificationCenter;
  - the `queue(_:)` setter;
  - `deinit` unregistration.
  `SetSender` and `SetBlock` model only the field updates of their methods.
- Notifications.NotificationObserver.SetBlock: the block itself is opaque; the model records only that one is set. Each run appends the (sender, userInfo) pair to `deliveries`.
- The force-unwraps `observers[key]!` (SwiftUtils/NotificationCenter.swift:24, 36) trap when the key is absent. The model states this as `requires key in observers`. Every method keeps the key set the same or larger.
- User defaults:
  - The NSCoding and UserDefaultsConvertible `get`/`set`/`change` overloads (SwiftUtils/UserDefaults.swift:201-260) are collapsed into one store over an opaque value type `V`. The archiving they do is not modelled.
  - `synchronize()`, the `Signals` events and the notification registrations are side channels and are not modelled.
- The timestamps live in the two maps under `_CloudKeysLastChangedTimestamp` in the source. The model keeps them in separate fields instead. A user key with that name, and the copying of the timestamp entry by the reconciliation loop (which is then overwritten), are therefore not modelled.
- Each `NSDate()` reading is a parameter. An operation that reads the clock once takes `now`. `Set`, `Change` and `Remove`, which read it once for disk and again for the cloud, take a second reading `cloudNow` that must be strictly later than `now`.
- `dictionaryRepresentation` of real NSUserDefaults also includes system-domain entries. The disk map here holds only the store's own keys.
- The `Dictionary.map` helper (SwiftUtils/UserDefaults.swift:289-291) is not modelled.
- Extensions.Split: only one-character separators are modelled; the source's callers use `&` and `=`.
- A Swift `Character` is a grapheme cluster. Here a character is one Unicode scalar value, so the subscripts index scalars.
- PercentCoding.PercentEncode: the set of characters Foundation's percent-escaping leaves alone is approximated by the unreserved and reserved characters of RFC 3986. This set also keeps `#`, `[` and `]`, which are not among the legal characters of RFC 2396 (section 2) and which Foundation may escape. Foundation's UTF-8 decoder is modelled by the strict RFC 3629 rules.
- `NSDateComponents.inverted`/`allUnits` and the `NSIndexPath` initializer are not modelled. NSDate `==` (SwiftUtils/Extensions.swift:80-82) is equality of integer timestamps.
- UserDefaults.UserDefaultsStore.SolveDiskCloudCollision, UserDefaults.Reconciled, UserDefaults.ReconcilingAgainKeepsDisk: reconciliation uses the corrected strict date order (see Findings), so equal timestamps go to disk. The as-written order, where they go to the cloud, is kept as `UserDefaults.CloudWinsAsWritten`. The two orders disagree only on equal timestamps: after a syncing write the cloud is strictly newer, so both choose the cloud (`UserDefaults.ReconcileAfterSyncingWrite`). Timestamps are equal after a reconciliation, and stay equal through later writes of keys that do not sync (`SetObjectOnDisk` stamps only syncing keys). On the next reconciliation the model copies disk into the cloud, so a local-only key written in between is uploaded. This happens when the store is opened again or `iCloudSync` is set to true. The source (SwiftUtils/UserDefaults.swift:142) copies the cloud into disk instead; `UserDefaults.ReconciledAsWritten` and `UserDefaults.ReconcilingTwiceAsWrittenDiffers` show the difference.

## Findings

| source | as written | input that shows it | evidently intended | confidence | as-written member | corrected member |
|---|---|---|---|---|---|---|
| SwiftUtils/Event.swift:49-54 | `removeListener` keeps the entries whose listener `===` the argument. | A listener of object A and one of object B; `removeListener(A)` keeps A's listener and drops B's. | Drop the argument's listeners (`!==`), as in the Signals library this file adapts. | not executed | `Events.Event.RemoveListenerAsWritten`, shown by `Events.RemoveListenerAsWrittenKeepsTheWrongOnes` | `Events.Event.RemoveListener` |
| SwiftUtils/Extensions.swift:83-85 | NSDate `<` is `a.earlierDate(b) == a`, which is true when the dates are equal. | Any date d gives `d < d`. At SwiftUtils/UserDefaults.swift:142 two equal timestamps therefore make the cloud win. | A strict order, as Comparable requires. | not executed | `Extensions.DateLessAsWrittenHoldsOnTies`, `UserDefaults.CloudWinsAsWrittenOnTies`, `UserDefaults.ReconcilingTwiceAsWrittenDiffers` | `Extensions.DateLessIsStrictTotalOrder`, `UserDefaults.CloudWinsIsLastWriterWins` |
| SwiftUtils/Extensions.swift:16-18 | Form encoding writes spaces as `+` but leaves a literal `+` unescaped. | `"+"` encodes to `"+"`, which decodes (lines 12-14) to `" "`. | Escape `+` as `%2B` before writing spaces as `+`, so decoding undoes encoding. | not executed | `Extensions.EncodeURLFormatLosesPlus`, `Extensions.PlusComesBackAsSpace` | `Extensions.DecodeEncodeURLFormat` |
