# RSMQ client, producer side, in Dafny

This project models the producer half of a PHP client for RSMQ, a simple
message queue kept in Redis. It has three cooperating parts.

- **The queue configuration** (`QueueConfig`, src/Config.php) is a value that
  exists only once every field has passed validation:
  - the namespace and name are trimmed and checked;
  - the visibility timeout and default delay must lie in 0..9999999;
  - the maximum message size must be 1024..65536 or the sentinel -1.

  From a configuration the model derives the four store keys: `ns:key`, the
  sorted set `ns:name`, the hash `ns:name:Q` and the channel `ns:rt:name`.
- **The message** (`Messages`, src/Message.php) is a mutable object holding a
  payload and an optional delay of its own. It builds:
  - the message id: the base-36 numeral of a decimal microsecond stamp,
    followed by 22 characters drawn from `A-Za-z0-9`;
  - the scheduling score: the millisecond stamp plus the effective delay.
- **The queue manager** (`QueueManager`, src/Queue.php) holds a
  configuration and a store.
  - When it opens, it reconciles the configuration with the settings
    persisted for the queue. If the queue is missing, it creates it (or
    refuses to). If the settings differ, it adopts them.
  - It sends a message in one transaction: schedule the id, store the
    payload, count the send and, on realtime queues, read the new length.
    It then publishes that length.

Redis is modelled as the `KeyValueStore` module:
- a class `Store` holding one map per kind of value (hashes, sorted sets,
  sets) and a log of published messages;
- a transaction that runs a queued command list in one step and returns one
  reply per command.

Its specification is the functions `Step` and `Exec` on the value `Db`.
Base-b numerals (PHP's `base_convert`, and the decimal strings built from
the clock) are in `Radix`. `Option`, `Result` and `Outcome` are in
`Wrappers`.

The server clock and the 22 random draws are method parameters: `(sec, usec)`
and `picks`.

## Model

| member | source | states |
|---|---|---|
| Radix.Encode | src/Message.php:81 | The numeral is non-empty, uses only digits of the base, and has no leading zero unless it is "0". |
| Radix.DecodeEncode | src/Message.php:81 | Decoding the numeral of n gives back n. |
| Radix.EncodeDecode | src/Message.php:81 | A canonical numeral (digits of the base, no leading zero) is the encoding of its own value. The two round trips make encoding a bijection onto canonical numerals. |
| Radix.EncodeOrder | src/Message.php:81 | A larger number has a longer numeral, or one of the same length that is lexicographically larger. |
| Radix.DecodeAppend | src/Queue.php:103 | Concatenating digit strings multiplies the first one's value by b^len(second) and adds the second one's value. This is what gluing the seconds to the microseconds means. |
| Radix.ZeroPadValue | src/Queue.php:102 | Left-padding with zeros to a width keeps the digits and the value, and gives length max(width, len). |
| Radix.EncodeLength | src/Queue.php:102 | A number below b^k has a numeral of at most k digits. |
| QueueConfig.TrimStart | src/Config.php:71 | The result is a suffix of the input with no leading blank, and everything removed was blank. |
| QueueConfig.TrimEnd | src/Config.php:71 | The result is a prefix of the input with no trailing blank, and everything removed was blank. |
| QueueConfig.Trim | src/Config.php:71 | trim() returns at most the input's length, and the result neither starts nor ends with a blank. |
| QueueConfig.TrimEmptyIffBlank | src/Config.php:71 | Trimming leaves the empty string exactly when the input is all blanks. So a whitespace-only name or namespace is refused as empty. |
| QueueConfig.TrimIdempotent | src/Config.php:100 | Trimming twice is trimming once. |
| QueueConfig.CheckNamespace | src/Config.php:98-107 | Succeeds iff the trimmed namespace is non-empty and does not end in ':', and then yields the trimmed namespace. It fails with EmptyNamespace exactly when the trimmed namespace is empty. It fails with NamespaceEndsWithSeparator exactly when it is non-empty and ends in ':'. |
| QueueConfig.CheckName | src/Config.php:69-81 | Succeeds iff the trimmed name is 1..160 characters of [a-zA-Z0-9_-], and then yields the trimmed name. It fails with EmptyName iff the trimmed name is empty, and with NameTooLong iff it is over 160. It fails with NameBadCharacters iff it is 1..160 characters long with some character outside the pattern. |
| QueueConfig.NewConfig | src/Config.php:34-42 | Succeeds iff namespace, name, vt, delay and maxSize are all valid (vt and delay in 0..9999999; maxSize -1 or 1024..65536). It then yields exactly the trimmed strings and the given numbers, and the result is Valid. The first failing setter, in the order namespace, name, vt, delay, maxSize, decides the error. |
| QueueConfig.DefaultConfig | src/Config.php:34 | With every argument but the name left at its default (namespace "rsmq", realtime, vt 30, delay 0, maxSize 65536), construction succeeds iff the trimmed name is valid. It then yields exactly those values. Otherwise it fails with one of the three name errors. |
| QueueConfig.Reconfigure | src/Queue.php:53-60 | Rebuilding a valid configuration with new settings fails only on the settings. It keeps name, namespace and realtime flag and replaces exactly vt, delay and maxSize. |
| QueueConfig.NewConfigOfValid | src/Config.php:34-42 | A valid configuration rebuilt from its own fields is itself. |
| QueueConfig.KeysIdentifyQueue | src/Config.php:48-123 | Covers the keys built by NamespaceKey (namespaceKey), GetName (getName), QueueKey (getName(true).':Q') and PublishKey (getPublishKey). Two valid configurations that share the sorted-set key, the hash key or the publish channel have the same namespace and name. |
| QueueConfig.KeysOfDifferentKinds | src/Queue.php:73-79 | Compares keys of different kinds across any two valid configurations:<br>• a hash key `ns:name:Q` is never a registry key `ns:QUEUES`;<br>• a sorted-set key `ns:name` equals a registry key only if the queue is named "QUEUES";<br>• a sorted-set key equals another queue's hash key only if its namespace contains ':'. |
| QueueConfig.RegistryCollision | src/Queue.php:79 | "QUEUES" is a valid name, and such a queue's sorted-set key is its namespace's registry key. |
| QueueConfig.NestedNamespaceCollision | src/Queue.php:108 | Every valid queue has a valid twin (name "Q", namespace `ns:name`) whose sorted-set key is the first queue's hash key. |
| Messages.MessageIdShape | src/Message.php:72-82 | An id is its stamp's base-36 numeral followed by exactly 22 alphanumeric characters. The prefix decodes back to the stamp. |
| Messages.AlphabetIsAlphanumeric | src/Message.php:75 | Every character of the 62-character alphabet is a letter or a digit. |
| Messages.MessageIdOrder | src/Message.php:81 | An id from a later stamp is never shorter. At equal length it is lexicographically larger, whatever the random parts. |
| Messages.IdOrderBreaksAtNewDigit | src/Message.php:81 | Ids of stamps 35 and 36 start with 'z' and '1', so the later id sorts first. The equal-length condition of MessageIdOrder cannot be dropped. |
| Messages.Message.constructor | src/Message.php:17-20 | A new message holds the payload and no delay of its own. |
| Messages.Message.SetMessage | src/Message.php:25-28 | Replaces the payload and leaves the delay alone. |
| Messages.Message.SetDelay | src/Message.php:42-48 | Accepts exactly None or 0..9999999 and then stores it. A refusal leaves the delay as it was. The payload never changes. |
| Messages.Message.GenerateUid | src/Message.php:72-82 | The loop appends the 22 drawn characters. The id is the base-36 numeral of the decimal stamp's value, followed by them. |
| Messages.UnlimitedRejectsEveryMessage | src/Message.php:62-65 | Message.CheckSize(m) holds iff the payload length is at most m. So checkSize(-1) is false for every message. |
| Messages.ScoreBounds | src/Message.php:89-93 | The score Message.GenerateQueueScore(t, d) is t + 1000·own delay when there is one, and t + 1000·default otherwise. It lies in [t, t + 1000·9999999] and is monotone in t. |
| KeyValueStore.Step | src/Redis/RedisAdapterInterface.php:36-79 | A command changes only its own key. Hash commands leave the sorted sets and sets alone, sAdd leaves hashes and sorted sets alone, and zAdd leaves hashes and sets alone. zCard changes nothing. hSetNx replies 0 iff the field was present, and sAdd replies 0 iff the member was present. |
| KeyValueStore.Exec | src/Redis/RedisAdapterInterface.php:16 | A transaction returns one reply per command. |
| KeyValueStore.ExecReplyAt | src/Redis/RedisAdapterInterface.php:16 | Reply j is command j's reply on the state left by the commands before it. |
| KeyValueStore.Store.HMGet | src/Redis/RedisAdapterInterface.php:43 | Returns one value per requested field: the hash's value where the field is present, and None where it is absent. |
| KeyValueStore.Store.Transaction | src/Redis/RedisAdapterInterface.php:16 | The loop runs the commands one by one. The new keyspace and the replies are Exec of the old keyspace, and nothing is published. |
| KeyValueStore.Store.Publish | src/Redis/RedisAdapterInterface.php:23 | Appends one publication to the log and leaves the keyspace alone. |
| QueueManager.PersistedSettings | src/Queue.php:40 | Reconciliation reads exactly three fields: vt, delay and maxsize. |
| QueueManager.CreateFields | src/Queue.php:74-78 | Creation writes exactly the fields vt, delay, maxsize, created and modified. |
| QueueManager.CreateBatch | src/Queue.php:73-79 | The creation closure queues six commands:<br>• five set-if-absent writes on the queue's hash, of five distinct fields of the creation map with their values, vt, delay and maxsize first;<br>• then the registration of the name in `ns:QUEUES`.<br>It is exactly the batch that the creation effect is proved for. |
| QueueManager.CreateBatchEffect | src/Queue.php:72-83 | The creation transaction:<br>• adds to the queue's hash only the five fields it lacked, with the configuration's values and the creation time;<br>• adds the name to `ns:QUEUES`.<br>A reply of 0 appears iff one of those fields or the name was already there. |
| QueueManager.Reconciled | src/Queue.php:38-62 | The specification of syncWithRedis. It fails with NotFound iff a setting is missing and creation is refused. It fails with AlreadyExists iff a setting is missing, creation is allowed and a conflict exists. Only creation writes. The configuration changes only on success, when all settings are present and disagree with it. A failure keeps the configuration. `QueueManager.ReconciledSucceeds` states when it passes, and `QueueManager.ReconciledRefusal` gives the error when it refuses stored settings. |
| QueueManager.ReconciledSucceeds | src/Queue.php:38-62 | For a valid configuration, reconciliation passes iff:<br>• any missing setting comes with creation allowed and no conflict;<br>• settings that are all present but disagree are themselves in range (vt and delay in seconds range, maxSize valid).<br>Agreeing settings always pass. With creation allowed and a setting missing, the keyspace becomes the creation state, whatever the outcome. |
| QueueManager.ReconciledRefusal | src/Queue.php:53-60 | When the settings are all present but disagree, and reconciliation fails, the error is `Invalid(reason)`. The reason is the one the Config constructor gives for the stored vt, delay and maxSize, and it is one of the three settings errors: the setters' InvalidArgumentException (src/Config.php:135, 157, 178), not NotFound or AlreadyExists. |
| QueueManager.CreatedSettings | src/Queue.php:74-76 | Creation without a conflict persists exactly the configuration's vt, delay and maxSize. |
| QueueManager.ReconciledAgrees | src/Queue.php:38-62 | After a successful reconciliation:<br>• the held configuration is valid;<br>• it keeps name, namespace and realtime flag;<br>• all three settings are persisted, and they agree with it. |
| QueueManager.ReconcileTwice | src/Queue.php:38-62 | Reconciliation is idempotent. Once it has succeeded, running it again succeeds, keeps the configuration and writes nothing. |
| QueueManager.PaddedMicros | src/Queue.php:102 | The sprintf('%06d') part has at least six decimal digits. |
| QueueManager.PadSixDigits | src/Queue.php:102 | For usec below 10^6 the padded part has exactly six digits and the value usec. |
| QueueManager.MicroTimestamp | src/Queue.php:103 | The id's stamp string is all decimal digits. |
| QueueManager.MsTimestamp | src/Queue.php:104-105 | The millisecond stamp lies within second sec: sec·1000 ≤ t < sec·1000 + 1000. |
| QueueManager.MicroTimestampValue | src/Queue.php:103 | The id's stamp is sec·10^6 + usec. |
| QueueManager.MsTimestampValue | src/Queue.php:104-107 | Seconds followed by the first three padded digits, read as an integer, equal sec·1000 + usec div 1000. |
| QueueManager.SendBatch | src/Queue.php:108-116 | The send closure queues three commands, four on a realtime queue. All of them touch only the queue's sorted set and hash. The first schedules the id at its score, and on a realtime queue the fourth reads the length of the sorted set. It is exactly the batch that the send effect is proved for: zAdd, hSet of the payload, hIncrBy of `totalsent`, then zCard. |
| QueueManager.SendBatchEffect | src/Queue.php:110-116 | The send transaction:<br>• adds id → score to `ns:name`;<br>• sets the id's field to the payload in `ns:name:Q`;<br>• counts the send in `totalsent`.<br>It has four replies on a realtime queue, the fourth being the new length of `ns:name`, and three otherwise. |
| QueueManager.IdIsNotMetadata | src/Queue.php:111 | A message id never coincides with a field the queue keeps for itself (the five creation fields and totalsent). |
| QueueManager.SendTouchesOnlyItsQueue | src/Queue.php:110-116 | A send changes:<br>• no set;<br>• no sorted set but `ns:name`;<br>• no hash but `ns:name:Q`;<br>• in that hash, no field but the id and totalsent;<br>• no queue's persisted settings. |
| QueueManager.Queue.constructor | src/Queue.php:25-28 | Stores the configuration and the store. |
| QueueManager.Queue.SyncWithRedis | src/Queue.php:38-62 | The outcome, the held configuration and the keyspace are exactly those of the reconciliation specification:<br>• missing settings and creation refused: NotFound, with no write;<br>• missing settings and creation allowed: the creation transaction;<br>• settings that agree: no change;<br>• settings that differ: adopt them, or fail if they are invalid.<br>Nothing is published. |
| QueueManager.Queue.Create | src/Queue.php:69-84 | The keyspace becomes the creation state. The outcome is AlreadyExists iff some reply was 0. |
| QueueManager.Queue.SendMessage | src/Queue.php:91-124 | A message checkSize(maxSize) refuses gives TooLarge and changes nothing. Otherwise:<br>• it returns the id built from sec·10^6 + usec and the draws;<br>• the keyspace becomes the sent state with score (sec·1000 + usec div 1000) + 1000·delay;<br>• on a realtime queue exactly one publication, the new length of `ns:name`, is appended on `ns:rt:name`. |
| QueueManager.OpenQueue | src/Queue.php:25-30 | A manager is returned iff reconciliation succeeds. It is fresh and holds the reconciled configuration. The keyspace is the reconciled one, and a failure carries the reconciliation's error. |

The source's code and its written intent disagree on one point. The intent
is that a queue with maxSize -1 (unlimited) skips the size check. The code
calls `checkSize(-1)` unconditionally (src/Queue.php:93), so such a queue
refuses every message. The model follows the code:
`Messages.UnlimitedRejectsEveryMessage` states the consequence, and
`QueueManager.Queue.SendMessage` returns TooLarge for every message on such
a queue.

The creation check in the source is a strict `in_array(0, $result, true)`.
The model treats replies as integers, so it fails iff some reply is `Int(0)`.

## Left out

- src/Redis/RedisAdapter.php, the binding to the phpredis extension, is not part of this model. The store is modelled abstractly from the adapter interface instead.
- `isConnected` and the integer that `publish` returns are not modelled: they are transport concerns.
- Concurrency is not modelled. A transaction is one sequential step, and a creation race shows only as a set-if-absent that replies 0.
- Redis keeps one keyspace for all kinds of values, and the model keeps one map per kind. So a command never meets a key of the wrong type, and the WRONGTYPE error is not modelled. Keys of one kind never collide between queues (`QueueConfig.KeysIdentifyQueue`), but keys of different kinds can, in two cases:
  - a queue named "QUEUES" has its sorted set at the registry key (`QueueConfig.RegistryCollision`);
  - a queue whose namespace contains ':' can have its sorted set at another queue's hash key (`QueueConfig.NestedNamespaceCollision`).

  Outside these two cases the keys are disjoint (`QueueConfig.KeysOfDifferentKinds`).
- QueueManager.Queue.SendMessage: in those two collision cases Redis would refuse the zAdd and zCard with WRONGTYPE, while the hSet and hIncrBy would still apply. The model schedules the message regardless.
- Strings are sequences of characters, one character per byte, so `strlen` is the sequence length. Multi-byte encodings are not modelled.
- Messages.Message.GenerateUid: base_convert is exact only up to the platform's integer range, and beyond it falls back to a double. The model converts exactly and requires the stamp to be below 2^53, a conservative bound: on 64-bit builds base_convert is exact up to 2^63 - 1, and on 32-bit builds it goes through a double beyond 2^31 - 1, which is still exact below 2^53. `QueueManager.Queue.SendMessage` therefore requires sec·10^6 + usec < 2^53.
- QueueManager.Queue.SendMessage: requires usec < 10^6, as a clock reading always has. Beyond that bound `%06d` would give more than six digits, and the stamps are not modelled for that case.
- PHP's `(int)` cast of a persisted setting is modelled only for numbers. A text value is taken as 0, and the string-to-number rules are not modelled.
- KeyValueStore.Step: HINCRBY on a field holding text replies with an error even when the text spells a number, where Redis would parse it. The protocol only ever writes `totalsent` as a number, so a send never meets this case.
- The clock and `random_int` are parameters of `SendMessage` (and `sec` of creation). Uniqueness and unpredictability of ids are not claimed.
- The `var_dump` that setMaxSize prints before refusing a size is not modelled.
- Default arguments are modelled only for the Config constructor (`QueueConfig.DefaultConfig`). The model's callers pass the other defaults explicitly: Queue's `$allowQueueCreation = true`, setDelay's `null`, generateQueueScore's `$defaultDelay = 0` (which sendMessage never relies on), and getName's `$namespaced = false` (src/Config.php:87), since `QueueConfig.GetName` always takes the flag. The Message constructor's `$message = null` (src/Message.php:17) is not modelled either: the null is handed to setMessage, whose `string` parameter refuses it, so `Messages.Message.constructor` always takes a text.
- The getters of Config and Message are field reads of the model's datatype and class. They have no members of their own.
- The store never fails in the model. In the source a lost connection or an aborted EXEC raises an exception out of the transaction. A failed publish after a successful batch (src/Queue.php:120) also raises one, although the message is by then stored.
- Exceptions become `Result`/`Outcome` values. A configuration refused while persisted settings are adopted becomes `Invalid(reason)`.
