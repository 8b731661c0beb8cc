# Coordination logic of a sharded key-value service

This project models the arithmetic and decision logic that several nodes
of a sharded, replicated key-value HTTP service use to coordinate. The
service is a Java program built on one-nio. The project is written in
Dafny and proves properties of the model.

- **Consistent-hash ring** (`HashRing`, from `lutsenko/service/DemoService.java`):
  - the constructor's node limit;
  - `fillVirtualNodes`, which gives each cluster URL ten positions in a hash space of 3 600 000 and re-hashes with a shared collision counter when a position is taken;
  - `getReplicaNodeNumbers`, which walks the ring clockwise from the key's ceiling entry, wraps to the start and collects the first `from` distinct node numbers.
- **Quorum** (`Quorum`, from `DemoService.handleReplicasResponses`):
  - the replica outcomes are folded one after another over a success counter, a failure counter and a map from timestamp to response;
  - the `ack`-th success forwards the response with the greatest timestamp;
  - the `(from - ack + 1)`-th failure answers "504 Not Enough Replicas".
- **Rendezvous routing** (`Rendezvous`, from `shestakova/DemoHttpServer.java`):
  - the node with the highest `murmur3(url + key)` among the URLs the circuit breaker does not report ill;
  - the key check, the proxy-or-serve choice, the forwarded request, and `handleDefault`.
- **Replica node front** (`CustomServer`, from `yasevich/service/CustomHttpServer.java`):
  - `ReplicationParams.fromHeader`, with `replicas=ack/from` taking precedence over `ack=` and `from=`, and its defaults;
  - the validation of client requests;
  - the branch for requests that carry the coordinator's timestamp, and the GET/PUT/DELETE executor over a timestamped store in which a `None` value is a tombstone.
- **HTTP helpers** (`HttpUtils`, from `shakhov/http/HttpUtils.java`):
  - the one-nio header keys;
  - `getIntParameter`;
  - the fixed empty-body responses.

Supporting modules:
- `JavaLang`: Java's 32-bit `int` and 64-bit `long` ranges, `Math.abs`, `%` and `/` truncating toward zero, 32-bit wrap-around, `Integer.toString`, and `parseInt`/`parseLong`, with `None` standing for the NumberFormatException.
- `Http`: requests, with parameters and headers as maps, and responses as a status code and an abstract body.
- `NavMap`: a `NavigableMap` with integer keys, as a strictly ascending sequence of entries.

Where the source changes state in place, the model does too:
- `DemoService` is a class over the ring.
- `QuorumCollector` is a class over the counters and the response map.
- `TimeStampingDao` and `CustomHttpServer` are classes over the store.

Each such method is proved against a function of the old state, and the properties are proved about those functions.

Parameters stand in for what the model does not compute:
- `Hash.murmur3` is a function parameter `string -> Int32`;
- the circuit breaker's `isNodeIll` is a parameter `string -> bool`;
- the clock is a parameter `now`;
- whether the workers pool accepts a runnable is a parameter `poolAccepts`.

The coordinator's header name is a field, because `ServiceImpl` is not part of this model.

## Model

| member | source | states |
|---|---|---|
| JavaLang.Abs | src/main/java/ok/dht/test/lutsenko/service/DemoService.java:223 | `Math.abs` of an `int`: non-negative except for `MIN_VALUE`, which stays `MIN_VALUE` |
| JavaLang.Rem | src/main/java/ok/dht/test/lutsenko/service/DemoService.java:223 | Java `%`: the remainder has the sign of the dividend and is smaller than the divisor; with `Div` it gives back the dividend |
| JavaLang.Div | src/main/java/ok/dht/test/yasevich/service/CustomHttpServer.java:159 | Java `/` truncates toward zero: `Div(a, b) * b + Rem(a, b) == a`, and the quotient has the sign of the dividend, or is 0 |
| JavaLang.Wrap32 | src/main/java/ok/dht/test/lutsenko/service/DemoService.java:198 | the `int` left by `collisionCounter++`: unchanged within the `int` range, congruent modulo 2^32 in any case |
| JavaLang.NatToString | src/main/java/ok/dht/test/lutsenko/service/DemoService.java:196 | the decimal form that string concatenation writes for an `int`: at least one digit, digits only |
| JavaLang.IntToStringShape | src/main/java/ok/dht/test/lutsenko/service/DemoService.java:196 | `Integer.toString`, as string concatenation writes an `int`: a minus sign exactly for a negative number, then decimal digits only |
| JavaLang.ParseDecimal | src/main/java/ok/dht/test/yasevich/service/CustomHttpServer.java:155-158 | accepts exactly an optional sign followed by decimal digits whose value is in range, and reads it as that value |
| JavaLang.ParseInt | src/main/java/ok/dht/test/yasevich/service/CustomHttpServer.java:155-158 | `Integer.parseInt`: a parsed value lies in the `int` range |
| JavaLang.ParseLong | src/main/java/ok/dht/test/yasevich/service/CustomHttpServer.java:51 | `Long.parseLong`: a parsed value lies in the `long` range |
| JavaLang.NatToStringValue | src/main/java/ok/dht/test/lutsenko/service/DemoService.java:196 | the digits written for `n` denote `n` |
| JavaLang.ParseIntToString | src/main/java/ok/dht/test/yasevich/service/CustomHttpServer.java:51 | what `toString` writes, `parseInt`/`parseLong` read back unchanged |
| JavaLang.ParseRejectsMalformed | src/main/java/ok/dht/test/shakhov/http/HttpUtils.java:23 | the empty string, a lone sign, and any string with a character that is neither a digit nor a leading sign fail to parse |
| JavaLang.ParseRejectsOutOfRange | src/main/java/ok/dht/test/shakhov/http/HttpUtils.java:23 | a well-formed number outside the range fails to parse |
| JavaLang.ParseIntExamples | src/main/java/ok/dht/test/yasevich/service/CustomHttpServer.java:155-158 | `"+7"` and `"007"` parse as 7, and `"-0"` parses as 0 |
| Http.GetParameter | src/main/java/ok/dht/test/shakhov/http/HttpUtils.java:19 | `getParameter`: null exactly when the parameter is absent; otherwise its value |
| Http.GetHeader | src/main/java/ok/dht/test/yasevich/service/CustomHttpServer.java:47 | `getHeader`: null exactly when the header is absent; otherwise its value |
| HttpUtils.OneNioHeaderKey | src/main/java/ok/dht/test/shakhov/http/HttpUtils.java:10 | the key is the header name followed by `':'` |
| HttpUtils.OneNioHeaderKeys | src/main/java/ok/dht/test/shakhov/http/HttpUtils.java:9-12 | the two one-nio keys are `"X-Leader-Timestamp:"` and `"X-Record-Timestamp:"`, and they differ |
| HttpUtils.GetIntParameter | src/main/java/ok/dht/test/shakhov/http/HttpUtils.java:18-25 | a missing or empty parameter gives the default; any other is `parseInt` of it |
| HttpUtils.GetIntParameterReadsWrittenValue | src/main/java/ok/dht/test/shakhov/http/HttpUtils.java:22-24 | a parameter holding the decimal form of an `int` reads as that `int`, whatever the default |
| HttpUtils.GetIntParameterMalformedFails | src/main/java/ok/dht/test/shakhov/http/HttpUtils.java:20-24 | a non-empty parameter that is not a decimal number, or is out of the `int` range, fails; it never falls back to the default |
| HttpUtils.InternalError | src/main/java/ok/dht/test/shakhov/http/HttpUtils.java:36-38 | status 500, empty body |
| HttpUtils.MethodNotAllowed | src/main/java/ok/dht/test/shakhov/http/HttpUtils.java:40-42 | status 405, empty body |
| HttpUtils.BadRequest | src/main/java/ok/dht/test/shakhov/http/HttpUtils.java:44-46 | status 400, empty body |
| NavMap.Values | src/main/java/ok/dht/test/lutsenko/service/DemoService.java:211 | `values()`: one value per entry, in key order |
| NavMap.ValuesConcat | src/main/java/ok/dht/test/lutsenko/service/DemoService.java:211-214 | the values of two adjacent key ranges are the two value sequences concatenated |
| NavMap.Put | src/main/java/ok/dht/test/lutsenko/service/DemoService.java:200 | `put` adds at most one entry |
| NavMap.PutEntries | src/main/java/ok/dht/test/lutsenko/service/DemoService.java:200 | `put` keeps the keys ascending, stores the new entry, and keeps every entry with another key |
| NavMap.PutMembers | src/main/java/ok/dht/test/lutsenko/service/DemoService.java:200 | after `put(k, v)` the entries are `(k, v)` and exactly the old entries with another key |
| NavMap.PutSorted | src/main/java/ok/dht/test/lutsenko/service/DemoService.java:146-148 | `put` keeps the keys strictly ascending |
| NavMap.PutKeys | src/main/java/ok/dht/test/lutsenko/service/DemoService.java:146-148 | after `put(k, v)` the keys are the old keys plus `k` |
| NavMap.PutNewKey | src/main/java/ok/dht/test/lutsenko/service/DemoService.java:197-200 | putting an absent key adds exactly one entry, holding the new value |
| NavMap.PutExistingKey | src/main/java/ok/dht/test/lutsenko/service/DemoService.java:146 | putting a present key keeps the size: it replaces an entry |
| NavMap.LastEntry | src/main/java/ok/dht/test/lutsenko/service/DemoService.java:151 | `lastEntry()` is an entry of the map with the greatest key |
| NavMap.CeilingIndex | src/main/java/ok/dht/test/lutsenko/service/DemoService.java:206 | `ceilingEntry(k)`: every earlier key is below `k`; at the end it stands for null |
| NavMap.CeilingIsLeastKeyAtLeast | src/main/java/ok/dht/test/lutsenko/service/DemoService.java:206 | in a sorted map every key from the ceiling entry on is at least `k` |
| HashRing.RingPosition | src/main/java/ok/dht/test/lutsenko/service/DemoService.java:222-224 | the position lies strictly between `-HASH_SPACE` and `HASH_SPACE`, and is non-negative exactly when the hash is not `MIN_VALUE` |
| HashRing.MinValuePosition | src/main/java/ok/dht/test/lutsenko/service/DemoService.java:30-32 | the hash `MIN_VALUE` lands on the negative position -1883648 |
| HashRing.IndexOf | src/main/java/ok/dht/test/lutsenko/service/DemoService.java:194 | `indexOf`: -1 exactly when absent, otherwise the first index holding the URL |
| HashRing.Dedup | src/main/java/ok/dht/test/lutsenko/service/DemoService.java:230-235 | the distinct owners of a walk, in first-seen order, without repeats |
| HashRing.NoDupCard | src/main/java/ok/dht/test/lutsenko/service/DemoService.java:213-216 | a repeat-free walk has as many owners as steps |
| HashRing.DedupPrefix | src/main/java/ok/dht/test/lutsenko/service/DemoService.java:230-235 | walking further keeps the owners already met and their order |
| HashRing.DedupAbsorbs | src/main/java/ok/dht/test/lutsenko/service/DemoService.java:214 | walking over owners already met adds nothing |
| HashRing.FirstDistinctCard | src/main/java/ok/dht/test/lutsenko/service/DemoService.java:213-216 | the first `n` distinct owners of a walk number `min(n, owners)` and are owners of the walk |
| HashRing.FirstDistinctPrefix | src/main/java/ok/dht/test/lutsenko/service/DemoService.java:232-233 | once `n` owners are met, the rest of the walk does not change the choice |
| HashRing.ExpectedOwnersMembers | src/main/java/ok/dht/test/lutsenko/service/DemoService.java:193-201 | the filled ring's owners are the `indexOf` numbers of the URLs |
| HashRing.DistinctNodeNumbers | src/main/java/ok/dht/test/lutsenko/service/DemoService.java:194 | with distinct URLs the node numbers are exactly `0 .. n-1` |
| HashRing.NodeUrlsMapsNumbersToUrls | src/main/java/ok/dht/test/lutsenko/service/DemoService.java:59-62 | `nodesNumberToUrlMap` maps each URL's node number back to that URL, and holds nothing else |
| HashRing.OwnersAreExpected | src/main/java/ok/dht/test/lutsenko/service/DemoService.java:191-203 | a ring holding ten copies per URL is owned by exactly the URLs' node numbers |
| HashRing.OwnersOfFilledRing | src/main/java/ok/dht/test/lutsenko/service/DemoService.java:191-203 | a filled ring with distinct URLs has one owner per URL, numbered from 0 |
| HashRing.AddReplicaNodePositions | src/main/java/ok/dht/test/lutsenko/service/DemoService.java:226-236 | the pass only adds owners of the walk; it ends with `from` replicas or with the whole walk taken; the result is the first `from` distinct owners of the walk so far |
| HashRing.EnoughOrAll | src/main/java/ok/dht/test/lutsenko/service/DemoService.java:230-235 | both exits of the loop (break at `from`, or walk exhausted) leave the first `from` distinct owners |
| HashRing.InsertFreshPosition | src/main/java/ok/dht/test/lutsenko/service/DemoService.java:197-200 | a free position inserts one entry and keeps the ring ordered and inside the hash space |
| HashRing.NextUrlOwners | src/main/java/ok/dht/test/lutsenko/service/DemoService.java:193-195 | after URL `j`'s ten positions, the ring holds the owners of the first `j + 1` URLs |
| HashRing.WalkCoversRing | src/main/java/ok/dht/test/lutsenko/service/DemoService.java:211-214 | the rotated walk from any entry meets every owner of the ring |
| HashRing.SecondPassSeesWholeWalk | src/main/java/ok/dht/test/lutsenko/service/DemoService.java:213-215 | when the tail pass comes up short, the pass over the whole ring completes the rotated walk |
| HashRing.FirstPassSuffices | src/main/java/ok/dht/test/lutsenko/service/DemoService.java:211-212 | when the tail pass finds `from` owners, they are the first `from` of the rotated walk |
| HashRing.Salted | src/main/java/ok/dht/test/lutsenko/service/DemoService.java:196 | a salted position lies strictly inside the hash space |
| HashRing.IncrementWraps | src/main/java/ok/dht/test/lutsenko/service/DemoService.java:198 | `collisionCounter++` is 32-bit two's complement addition of 1: `MAX_VALUE` wraps to `MIN_VALUE` |
| HashRing.CounterAfterWraps | src/main/java/ok/dht/test/lutsenko/service/DemoService.java:198 | `k` post-increments of the counter add `k` modulo 2^32 |
| HashRing.ProbeStep | src/main/java/ok/dht/test/lutsenko/service/DemoService.java:197-198 | retry `n + 1` hashes with the counter as the first `n` retries left it |
| HashRing.ProbeIsSalted | src/main/java/ok/dht/test/lutsenko/service/DemoService.java:196-198 | every candidate of the collision loop is `url + i + c` hashed for some counter value `c` |
| HashRing.PlacedByMurmur3 | src/main/java/ok/dht/test/lutsenko/service/DemoService.java:196-200 | with the service's hash, each ring entry sits at `Math.abs(murmur3(url + i + c)) % HASH_SPACE` of its owner's URL, for some `i < 10` and counter `c` |
| HashRing.InsertPlaced | src/main/java/ok/dht/test/lutsenko/service/DemoService.java:200 | storing a salted position of a URL under its number keeps every entry at a salted position of its owner |
| HashRing.SearchAfterTaken | src/main/java/ok/dht/test/lutsenko/service/DemoService.java:197-199 | after `k` taken candidates the loop goes on from candidate `k`, with the counter after `k` increments and `k` retries spent |
| HashRing.ProbeSearchOutcome | src/main/java/ok/dht/test/lutsenko/service/DemoService.java:196-199 | the loop stops on the first free candidate after the retries spent, or, with the budget spent, after `budget + 1` taken candidates; a free first candidate is taken at once |
| HashRing.FreeFirstCandidate | src/main/java/ok/dht/test/lutsenko/service/DemoService.java:196-197 | a free first candidate is taken at once, whatever the budget |
| HashRing.FindFreePosition | src/main/java/ok/dht/test/lutsenko/service/DemoService.java:196-199 | the position found is the first free candidate, every earlier one being taken, with the counter after the retries spent; not found only once all `budget + 1` candidates are taken; a free first candidate is taken with the budget untouched |
| HashRing.AddVirtualNode | src/main/java/ok/dht/test/lutsenko/service/DemoService.java:196-200 | one virtual node: found exactly when the search finds a free position, which is then `put` under `indexOf(url)`, adding one entry and keeping the ring sorted, in the hash space and placed; not found leaves the ring and no budget |
| HashRing.FillUrl | src/main/java/ok/dht/test/lutsenko/service/DemoService.java:195-201 | the ten virtual nodes of URL `j`: done exactly when the fill function finishes that URL, with its ring, counter and budget; the ring then holds ten more entries of the URL's number |
| HashRing.FillRing | src/main/java/ok/dht/test/lutsenko/service/DemoService.java:191-203 | the two loops of `fillVirtualNodes`: filled exactly when `Fill` finishes, with `Fill`'s ring and budget; a filled ring has ten placed entries per URL, sorted and in the hash space; an unfinished fill has spent its whole budget |
| HashRing.SearchMoreBudget | src/main/java/ok/dht/test/lutsenko/service/DemoService.java:197-199 | a search that finds a free position finds the same one with a larger budget, leaving the surplus |
| HashRing.FillUrlMoreBudget | src/main/java/ok/dht/test/lutsenko/service/DemoService.java:195-201 | a URL's ten virtual nodes that go in with some budget go in the same places with a larger one |
| HashRing.FillUrlStepGrows | src/main/java/ok/dht/test/lutsenko/service/DemoService.java:194-201 | the per-URL step of the fill only ever spends budget: more budget never changes where it puts a position |
| HashRing.FillFromMoreBudget | src/main/java/ok/dht/test/lutsenko/service/DemoService.java:193-202 | a fill of the remaining URLs that finishes with some budget finishes on the same ring with a larger one |
| HashRing.FillIsBudgetIndependent | src/main/java/ok/dht/test/lutsenko/service/DemoService.java:191-203 | the retry budget decides only whether the fill finishes, never the ring: a fill that finishes finishes on the same ring with any larger budget |
| HashRing.DemoService.constructor | src/main/java/ok/dht/test/lutsenko/service/DemoService.java:56-62 | `selfNodeNumber` is `indexOf(selfUrl)`, and `nodesNumberToUrlMap` is built from the URLs |
| HashRing.DemoService.Create | src/main/java/ok/dht/test/lutsenko/service/DemoService.java:52-63 | fails with `TooManyNodes` exactly above 1000 URLs, and with `CollisionRetriesExhausted` exactly when `Fill` runs out of budget; otherwise the service holds `Fill`'s ring, which is valid: sorted, in the hash space, ten entries per URL under its `indexOf`, each at a salted murmur3 position |
| HashRing.DemoService.FillVirtualNodes | src/main/java/ok/dht/test/lutsenko/service/DemoService.java:191-203 | filled exactly when `Fill` finishes, leaving `Fill`'s ring in `virtualNodes`, valid; an unfinished fill has spent its whole budget |
| HashRing.DemoService.GetReplicaNodeNumbers | src/main/java/ok/dht/test/lutsenko/service/DemoService.java:205-220 | fails on an empty ring, or when fewer than `from` owners exist; otherwise exactly `from` owners, the first `from` distinct ones of the walk from the key's ceiling entry |
| Quorum.Stamp | src/main/java/ok/dht/test/lutsenko/service/DemoService.java:144-148 | the stamp of a success: 0 without a timestamp header; otherwise `Long.parseLong` of the header, none when it does not parse |
| Quorum.EffectOf | src/main/java/ok/dht/test/lutsenko/service/DemoService.java:142-159 | a success counts exactly when its status is a success status and its stamp parses; a failure counts exactly for an exception or another status; a cancelled outcome or an unparsable stamp counts as neither |
| Quorum.Step | src/main/java/ok/dht/test/lutsenko/service/DemoService.java:141-163 | one runnable keeps the response map sorted |
| Quorum.Run | src/main/java/ok/dht/test/lutsenko/service/DemoService.java:139-165 | the fold over an arrival order keeps the response map sorted |
| Quorum.SentSplits | src/main/java/ok/dht/test/lutsenko/service/DemoService.java:151-160 | every response sent is a forward or a 504 |
| Quorum.CountsCover | src/main/java/ok/dht/test/lutsenko/service/DemoService.java:143-162 | every outcome counts as a success, as a failure, or as neither |
| Quorum.RunCounts | src/main/java/ok/dht/test/lutsenko/service/DemoService.java:150-161 | the counters count successes and failures; one forward once successes reach `ack`, one 504 once failures reach `from - ack + 1` |
| Quorum.AtMostOneResponse | src/main/java/ok/dht/test/lutsenko/service/DemoService.java:150-161 | with `1 <= ack <= from` and at most `from` outcomes, at most one response is sent in any order |
| Quorum.ExactlyOneResponse | src/main/java/ok/dht/test/lutsenko/service/DemoService.java:150-161 | when all `from` replicas answer or fail, exactly one response is sent in any order |
| Quorum.NoEffectCount | src/main/java/ok/dht/test/lutsenko/service/DemoService.java:143-162 | outcomes that all count leave nothing uncounted |
| Quorum.SentGrows | src/main/java/ok/dht/test/lutsenko/service/DemoService.java:151-160 | responses are only ever appended |
| Quorum.LaterOutcomesSendNothing | src/main/java/ok/dht/test/lutsenko/service/DemoService.java:150-161 | once the client has its response, later outcomes send nothing |
| Quorum.RunFilesStamps | src/main/java/ok/dht/test/lutsenko/service/DemoService.java:143-149 | the map holds only successes under their own stamps, and holds every headered success's stamp |
| Quorum.RunFiledFromOutcomes | src/main/java/ok/dht/test/lutsenko/service/DemoService.java:146-148 | every response in the map is the reply of one of the successes received so far |
| Quorum.ForwardedIsLastEntry | src/main/java/ok/dht/test/lutsenko/service/DemoService.java:150-151 | the response forwarded at the `ack`-th success is `lastEntry()` of a non-empty map |
| Quorum.ForwardedIsFreshest | src/main/java/ok/dht/test/lutsenko/service/DemoService.java:143-152 | the response forwarded at the `ack`-th success is the reply of one of the counted successes, and its stamp is at least that of every headered success so far |
| Quorum.RunSnoc | src/main/java/ok/dht/test/lutsenko/service/DemoService.java:139-140 | one more runnable advances the fold by one step |
| Quorum.QuorumCollector.constructor | src/main/java/ok/dht/test/lutsenko/service/DemoService.java:136-138 | both counters are 0 and the map is empty |
| Quorum.QuorumCollector.OnOutcome | src/main/java/ok/dht/test/lutsenko/service/DemoService.java:141-163 | the shared state after one runnable is one `Step` of the fold |
| Quorum.QuorumCollector.CountFailure | src/main/java/ok/dht/test/lutsenko/service/DemoService.java:154-161 | the failure counter goes up by one, and the 504 is sent exactly when it reaches `from - ack + 1` |
| Quorum.HandleReplicasResponses | src/main/java/ok/dht/test/lutsenko/service/DemoService.java:122-166 | what the session is sent equals the fold over the order the runnables ran in |
| Rendezvous.Scan | src/main/java/ok/dht/test/shestakova/DemoHttpServer.java:205-217 | the chosen index is -1 (null) or one of the URLs visited |
| Rendezvous.ScanChoosesWinner | src/main/java/ok/dht/test/shestakova/DemoHttpServer.java:205-217 | null exactly when every URL so far is ill; otherwise the winner: healthy, with the greatest weight, and the first with it |
| Rendezvous.WinnerIsUnique | src/main/java/ok/dht/test/shestakova/DemoHttpServer.java:213 | the strict comparison leaves one winner: ties go to the earliest URL |
| Rendezvous.RendezvousTarget | src/main/java/ok/dht/test/shestakova/DemoHttpServer.java:204-219 | no target exactly when every URL is ill; otherwise the winner's URL |
| Rendezvous.MarkingOtherNodeIllKeepsTarget | src/main/java/ok/dht/test/shestakova/DemoHttpServer.java:208-218 | marking ill a node other than the target leaves the target unchanged |
| Rendezvous.GetClusterByRendezvousHashing | src/main/java/ok/dht/test/shestakova/DemoHttpServer.java:204-219 | null exactly when every URL is ill; otherwise a healthy URL with the greatest `murmur3(url + key)` |
| Rendezvous.RequestForKey | src/main/java/ok/dht/test/shestakova/DemoHttpServer.java:163-165 | the URI is the node URL, then `/v0/entity?id=`, then the key |
| Rendezvous.RequestForKeyInjective | src/main/java/ok/dht/test/shestakova/DemoHttpServer.java:163-165 | for node URLs of one length, different nodes or keys give different URIs |
| Rendezvous.BuildHttpRequest | src/main/java/ok/dht/test/shestakova/DemoHttpServer.java:159-184 | 405 exactly for a method other than GET/PUT/DELETE; an exception exactly for an invalid URI, or for a PUT without a body; otherwise the same method to `target + "/v0/entity?id=" + key`, with the body only for PUT |
| Rendezvous.GetKeyFromRequest | src/main/java/ok/dht/test/shestakova/DemoHttpServer.java:138-153 | no key exactly when `id` is missing or empty |
| Rendezvous.TargetNode | src/main/java/ok/dht/test/shestakova/DemoHttpServer.java:54-55 | this node in a one-node cluster; otherwise none exactly when every node is ill, else the rendezvous winner |
| Rendezvous.HandleRequest | src/main/java/ok/dht/test/shestakova/DemoHttpServer.java:45-97 | 400 exactly without a key; served here in a one-node cluster or when this node is the target; nothing sent exactly when every node is ill; for another target, 405 exactly for a method other than GET/PUT/DELETE, an escaping exception exactly for an invalid URI or a PUT without a body, and otherwise a proxy to that target, healthy and in the cluster, with the request `BuildHttpRequest` builds |
| Rendezvous.RequestFollowsWinner | src/main/java/ok/dht/test/shestakova/DemoHttpServer.java:54-88 | in a cluster of several nodes the request follows the rendezvous winner: served here when this node wins; otherwise proxied to the winner whenever the request can be built |
| Rendezvous.ProxyResponse | src/main/java/ok/dht/test/shestakova/DemoHttpServer.java:186-202 | relays the remote status and body; failure or timeout answers 503; interruption falls back to local handling |
| Rendezvous.HandleDefault | src/main/java/ok/dht/test/shestakova/DemoHttpServer.java:99-122 | 400 without a key, 405 for other methods, 503 for GET/PUT/DELETE, always without a body |
| Rendezvous.SingleNodeServesLocally | src/main/java/ok/dht/test/shestakova/DemoHttpServer.java:54-55 | in a one-node cluster neither the hash nor the circuit breaker matters: the request is served here |
| CustomServer.SplitFields | src/main/java/ok/dht/test/yasevich/service/CustomHttpServer.java:154 | at least one field |
| CustomServer.StripTrailingEmpty | src/main/java/ok/dht/test/yasevich/service/CustomHttpServer.java:154 | a prefix of the fields that ends non-empty, with only empty fields dropped |
| CustomServer.JavaSplit | src/main/java/ok/dht/test/yasevich/service/CustomHttpServer.java:154 | `split("/")`: the whole string when it holds no `/`; otherwise fields without `/`, the last one non-empty |
| CustomServer.SplitFieldsNoSeparator | src/main/java/ok/dht/test/yasevich/service/CustomHttpServer.java:154 | a string without the separator is one field |
| CustomServer.SplitFieldsJoin | src/main/java/ok/dht/test/yasevich/service/CustomHttpServer.java:154 | splitting `a/b` yields `a` followed by the fields of `b` |
| CustomServer.SplitTwoFields | src/main/java/ok/dht/test/yasevich/service/CustomHttpServer.java:154 | `split("/")` of `a/b`, with neither part holding `/` and `b` non-empty, is `[a, b]` |
| CustomServer.NoSlashInNumber | src/main/java/ok/dht/test/yasevich/service/CustomHttpServer.java:154 | the decimal form of an integer has no `/` |
| CustomServer.DefaultAck | src/main/java/ok/dht/test/yasevich/service/CustomHttpServer.java:159 | the default `ack` for `from >= 1` lies between 1 and `from` |
| CustomServer.FromReplicasFields | src/main/java/ok/dht/test/yasevich/service/CustomHttpServer.java:154-157 | fewer than two fields is the out-of-bounds exception; two fields that are not both `int`s is a NumberFormatException; otherwise `ack` is field 0 and `from` field 1 |
| CustomServer.FromHeader | src/main/java/ok/dht/test/yasevich/service/CustomHttpServer.java:150-161 | `replicas=` with fewer than two fields throws out-of-bounds; without `replicas=`, a missing `from` is the cluster size, a missing `ack` the default for `from`, and a given one its parsed value; a NumberFormatException needs a given parameter |
| CustomServer.ReplicasTakePrecedence | src/main/java/ok/dht/test/yasevich/service/CustomHttpServer.java:154-158 | `replicas=a/b` gives `ack = a` and `from = b`, whatever `ack=` and `from=` say |
| CustomServer.DefaultParams | src/main/java/ok/dht/test/yasevich/service/CustomHttpServer.java:155-159 | with no replication parameter, `from` is the cluster size and `ack` its majority |
| CustomServer.ExplicitFrom | src/main/java/ok/dht/test/yasevich/service/CustomHttpServer.java:155-159 | `from=b` alone gives `from = b` and the default `ack` for `b` |
| CustomServer.ExplicitAck | src/main/java/ok/dht/test/yasevich/service/CustomHttpServer.java:156-158 | `ack=a` alone gives `ack = a` and `from` the cluster size |
| CustomServer.ExplicitAckAndFrom | src/main/java/ok/dht/test/yasevich/service/CustomHttpServer.java:155-158 | `ack=a&from=b` gives `ack = a` and `from = b` |
| CustomServer.MalformedAckIsNumberFormat | src/main/java/ok/dht/test/yasevich/service/CustomHttpServer.java:157-158 | without `replicas=`, an `ack=` that is not an `int` is a NumberFormatException, whatever `from=` says |
| CustomServer.DefaultAckBounds | src/main/java/ok/dht/test/yasevich/service/CustomHttpServer.java:159 | the default `ack` is at most the cluster size, or is `from`; when it is not `from` it is a strict majority |
| CustomServer.ClientBadRequestRules | src/main/java/ok/dht/test/yasevich/service/CustomHttpServer.java:75-81 | 400 exactly when the path is not `/v0/entity`, the id is missing or empty, `ack > from` or `ack <= 0`; `from` is not checked against the cluster size |
| CustomServer.MalformedFromIsBadRequest | src/main/java/ok/dht/test/yasevich/service/CustomHttpServer.java:65-73 | a non-numeric `from=` answers 400 |
| CustomServer.ShortReplicasIsNotHandled | src/main/java/ok/dht/test/yasevich/service/CustomHttpServer.java:154-155 | `replicas=` without a `/` throws out of `handleRequest` and nothing is answered |
| CustomServer.ClientDecision | src/main/java/ok/dht/test/yasevich/service/CustomHttpServer.java:63-85 | hands over for replication exactly when the pool takes the runnable, the parameters parse and the request is valid; otherwise 400, or 503 exactly when the pool refuses |
| CustomServer.TimeStampingDao.constructor | src/main/java/ok/dht/test/yasevich/service/CustomHttpServer.java:38-39 | the store starts empty |
| CustomServer.TimeStampingDao.Get | src/main/java/ok/dht/test/yasevich/service/CustomHttpServer.java:105 | null exactly for an id never written; otherwise its stored entry |
| CustomServer.TimeStampingDao.Upsert | src/main/java/ok/dht/test/yasevich/service/CustomHttpServer.java:116 | the id's entry becomes `(value, time)`, and nothing else changes |
| CustomServer.GetResponse | src/main/java/ok/dht/test/yasevich/service/CustomHttpServer.java:104-113 | 404 with an empty body exactly when absent, 404 with the timestamp exactly for a tombstone, 200 with value and timestamp for a live value |
| CustomServer.ReadAfterPut | src/main/java/ok/dht/test/yasevich/service/CustomHttpServer.java:120-123 | a PUT value reads back with the coordinator's timestamp |
| CustomServer.ReadAfterDelete | src/main/java/ok/dht/test/yasevich/service/CustomHttpServer.java:115-118 | after DELETE the id reads as a tombstone with the deletion time, unlike an id never written |
| CustomServer.DeleteIsIdempotent | src/main/java/ok/dht/test/yasevich/service/CustomHttpServer.java:115-118 | repeating a DELETE with the same timestamp changes nothing more |
| CustomServer.WritesAreLocal | src/main/java/ok/dht/test/yasevich/service/CustomHttpServer.java:95-123 | a write touches only its own id; GET and the rejected methods leave the store unchanged |
| CustomServer.InnerOutcome | src/main/java/ok/dht/test/yasevich/service/CustomHttpServer.java:47-58 | 503 when the pool refuses; 400 for an unparsable timestamp; not handled exactly when an entity method has no id; otherwise the response `handleInnerRequest` gives on the current store, 405 for other methods |
| CustomServer.InnerEntries | src/main/java/ok/dht/test/yasevich/service/CustomHttpServer.java:47-58 | a refused runnable or an unparsable timestamp leaves the store unchanged |
| CustomServer.CoordinatorTimestampIsVerbatim | src/main/java/ok/dht/test/yasevich/service/CustomHttpServer.java:47-58 | the coordinator's timestamp, written by `Long.toString`, is stored unchanged by PUT or DELETE |
| CustomServer.CustomHttpServer.constructor | src/main/java/ok/dht/test/yasevich/service/CustomHttpServer.java:32-42 | a fresh, empty store |
| CustomServer.CustomHttpServer.HandleGet | src/main/java/ok/dht/test/yasevich/service/CustomHttpServer.java:104-113 | answers `GetResponse` of the current store |
| CustomServer.CustomHttpServer.HandleDelete | src/main/java/ok/dht/test/yasevich/service/CustomHttpServer.java:115-118 | the id becomes a tombstone at `time`; answers 202 |
| CustomServer.CustomHttpServer.HandlePut | src/main/java/ok/dht/test/yasevich/service/CustomHttpServer.java:120-123 | the id becomes `(body, time)`, a tombstone when there is no body; answers 201 |
| CustomServer.CustomHttpServer.HandleInnerRequest | src/main/java/ok/dht/test/yasevich/service/CustomHttpServer.java:95-102 | GET reads, PUT answers 201, DELETE answers 202, others 405; the store changes only by PUT and DELETE |
| CustomServer.CustomHttpServer.HandleRequest | src/main/java/ok/dht/test/yasevich/service/CustomHttpServer.java:45-93 | with the coordinator header: the timestamped executor; without it: the client decision, with the store unchanged |

## Left out

- I/O, threads and timing are not modelled:
  - `session.sendResponse` and its IOException;
  - the executor pools, their queues and saturation policies;
  - `CompletableFuture` waiting, the timeouts, and `cancel(true)`.
- The quorum runnables run concurrently on a pool. The model folds their outcomes in one arbitrary order, which stands for any interleaving. A cancelled runnable is an outcome with no effect.
- A race between the `incrementAndGet` and `put` calls of two runnables is not modelled.
- `Hash.murmur3` is left uninterpreted. `isNodeIll` is an arbitrary predicate.
- The circuit breaker and its `incrementFallenRequestsCount` are not part of this model. Neither are `ReplicationManager`, `RandevouzHashingRouter`, `RequestParser`, `DaoHandler`, `ProxyHandler`, `ServiceImpl` and the internals of `TimeStampingDao`.
  - DemoService's request pipeline (`isProxyRequestAndHandle`, the parser checks, and dispatch to the local DAO or the proxy) appears only through `GetReplicaNodeNumbers` and the quorum, each modelled on its own.
  - The client branch of `CustomHttpServer.handleRequest` ends at the hand-over to `ReplicationManager`.
- CustomServer.TimeStampingDao.Upsert: always overwrites. Whether the real store keeps the newer timestamp is not visible here.
- Entry bodies (`timeBytes`, `wholeToBytes`) are kept abstract. Their byte encoding is not modelled.
- HashRing.DemoService.FillVirtualNodes: the collision loop is bounded by a retry budget, because it cannot be shown to end without knowing the hash; the source loops without bound. `Create` fails with `CollisionRetriesExhausted` only when the budget runs out, and `FillIsBudgetIndependent` shows that a larger budget never moves a position, so a budget large enough gives the ring the source builds.
- HashRing.FillRing: the fill loops work on the ring as a value, which `FillVirtualNodes` stores in `virtualNodes` when it ends. The constructor runs the fill, so nothing observes the ring while it is being filled.
- The fill's lemmas about the collision loop take the salted key hash and the map insertion as parameters (`KeyHash`, `Insert`); the service uses `SaltedKeyHash(murmur3)` and `NavMap.Put`.
- HashRing.DemoService.constructor: requires at most 1000 URLs. `Create` makes that check, as the Java constructor does, and returns the error.
- Rendezvous.BuildHttpRequest: the RFC 2396 syntax check of `URI.create` is the parameter `isValidUri`. Which characters of a key it rejects is not modelled.
- Rendezvous.GetKeyFromRequest: when sending the 400 itself fails with an IOException, the source carries on with the null key instead of stopping. The model treats that case as stopping.
- CustomServer.CustomHttpServer.HandleRequest: a GET, PUT or DELETE that carries the coordinator header but no `id` reaches the store with a null key. What the store then does is not visible here, so the model returns `NotHandled`.
- CustomServer.CustomHttpServer.HandleRequest: the IOException-to-500 path of the coordinator branch is not modelled. The modelled store never fails.
- `parseInt`/`parseLong` accept ASCII digits only. Java also accepts other Unicode decimal digits.
- Reason phrases are not modelled; responses carry only the status code.
- `WebService.java` is not part of this model. The same goes for server start and stop, the selector and session closing, and the server-config builders: these are framework plumbing.
- Logging is left out.
- HttpUtils.GetIntParameter: the parameter is looked up by its name without the trailing `'='` that one-nio's `getParameter` key carries.
