# Unbounded resequencing, circuit breaker, retry, source metrics and remote get — a Dafny model

This project models parts of Spring Integration 2.2 in Dafny and proves properties of the model.

**The unbounded resequencing pair** (the main part):

- `UnboundedMessageGroupStore` decorates a base message-group store. For each correlation key it keeps a shadow group: a view of the base store's group for that key plus a `removed` counter. When a message is marked, every other marked message is deleted from the delegate and counted in `removed`. So a never-ending sequence keeps at most one released message, while the group's size still counts every message ever added. The base store is modelled abstractly: a map from key to a group of unmarked and marked messages. Its own implementation is not part of this model.
- `UnboundedSequenceReleaseStrategy` decides when the lowest waiting message may go out:
  - it is number 1 and nothing has been released yet; or
  - it directly follows the last released (marked) message.

  The sequence number is read from the standard header or from a configured custom header. Partial release cannot be switched off.
- The resequencing handler that drives the two (add, then release while the rule allows and mark) is outside this model; it is modelled as ghost functions, `Feed` and `Release`. On them the model proves the resequencing theorem: for arrivals with distinct positive numbers, in any order, exactly 1, 2, …, L go out, in that order, where L is the longest run of numbers that have all arrived. The store's counting invariants hold along the way. The resequencer tests' arrival orders are proved as instances.

**Smaller pieces:**

- the circuit breaker interceptor, as a three-state machine (closed, open, half-open after the wait) over a failure counter and a last-failure time;
- the counters of `SimpleMessageSourceMetrics` and its "PollFailed" notification;
- the handler-name normalisation of `RetryBeanPostProcessor`;
- the remote path joining, the constructor checks and the error cases of `AbstractRemoteFileTemplate.get`.

**Files:**

| file | contents |
|---|---|
| `wrappers.dfy` | Option, Result and Outcome |
| `java_lang.dfy` | the Java `int` with wrap-around, and exceptions as values |
| `messages.dfy` | messages and the base store's groups |
| `delegate_store.dfy` | the abstract base store and its aggregate counters |
| `unbounded_store.dfy` | the unbounded store |
| `release_strategy.dfy` | the release rule |
| `resequencer.dfy` | the driver and the resequencing theorem |
| `bean_post_processing.dfy`, `circuit_breaker.dfy`, `retry.dfy` | the handler post-processors |
| `message_source_metrics.dfy` | the source metrics |
| `remote_file_template.dfy` | the remote file template |

Where the source changes state in place, the model is a class with `modifies` clauses, and a pure function or predicate specifies each method:

- `UnboundedMessageGroupStore`, `SimpleMessageStore`;
- `CircuitBreakerInterceptor`, `SimpleMessageSourceMetrics`;
- `RetryBeanPostProcessor`, `UnboundedSequenceReleaseStrategy`.

Time (`System.currentTimeMillis`), the outcome of the intercepted call, SpEL evaluation, the file system and the remote session are parameters.

## Model

| member | source | states |
|---|---|---|
| UnboundedStore.UnboundedMessageGroup.Size | spring-integration-core/src/main/java/org/springframework/integration/store/UnboundedMessageGroupStore.java:283-285 | the size is the number of held unmarked and marked messages plus the removed count; it is zero exactly when the group holds nothing and nothing was removed |
| UnboundedStore.UnboundedMessageGroup.GetUnmarked | spring-integration-core/src/main/java/org/springframework/integration/store/UnboundedMessageGroupStore.java:243-245 | the unmarked messages are exactly the delegate group's |
| UnboundedStore.UnboundedMessageGroup.GetMarked | spring-integration-core/src/main/java/org/springframework/integration/store/UnboundedMessageGroupStore.java:251-253 | the marked messages are exactly the delegate group's |
| UnboundedStore.UnboundedMessageGroup.MarkFrom | spring-integration-core/src/main/java/org/springframework/integration/store/UnboundedMessageGroupStore.java:152-166 | after marking m, m is no longer unmarked, m is the only marked message (none if the group did not hold it), and every other previously marked message is added to the removed count |
| UnboundedStore.UnboundedMessageGroup.IsComplete | spring-integration-core/src/main/java/org/springframework/integration/store/UnboundedMessageGroupStore.java:267-269 | an unbounded group is never complete |
| UnboundedStore.UnboundedMessageGroup.GetSequenceSize | spring-integration-core/src/main/java/org/springframework/integration/store/UnboundedMessageGroupStore.java:275-277 | the sequence size it reports is Integer.MAX_VALUE |
| UnboundedStore.UnboundedMessageGroup.SetDelegate | spring-integration-core/src/main/java/org/springframework/integration/store/UnboundedMessageGroupStore.java:219-221 | pointing the shadow at a new delegate group keeps the removed count and shows that group's marked and unmarked messages |
| UnboundedStore.UnboundedMessageGroup.IncrementRemoved | spring-integration-core/src/main/java/org/springframework/integration/store/UnboundedMessageGroupStore.java:226-228 | the shadow's size grows by exactly one and its delegate group is unchanged |
| UnboundedStore.MarkAndPrune | spring-integration-core/src/main/java/org/springframework/integration/store/UnboundedMessageGroupStore.java:152-166 | after marking m and deleting the other marked messages, the unmarked set has lost only m and the marked set is exactly {m} (empty when the group lacks m) |
| UnboundedStore.MarkKeepsSize | spring-integration-core/src/main/java/org/springframework/integration/store/UnboundedMessageGroupStore.java:283-285 | marking leaves size() = delegate size + removed unchanged, leaves at most one marked message and never lowers removed |
| UnboundedStore.MarkUnmarked | spring-integration-core/src/main/java/org/springframework/integration/store/UnboundedMessageGroupStore.java:152-166 | marking an unmarked message leaves it the only marked one, counts every previously marked message as removed, and keeps the size |
| UnboundedStore.MarkFirstOfThree | spring-integration-core/src/test/java/org/springframework/integration/store/UnboundedMessageGroupStoreTests.java:114 | in a fresh group of three, the first marking moves that message alone to the marked side and counts nothing as removed |
| UnboundedStore.MarkTwice | spring-integration-core/src/test/java/org/springframework/integration/store/UnboundedMessageGroupStoreTests.java:113-118 | in a group of three, marking the first and then the second keeps size 3 with one marked message |
| UnboundedStore.VisitStep | spring-integration-core/src/main/java/org/springframework/integration/store/UnboundedMessageGroupStore.java:157-163 | one turn of the loop over the marked messages keeps visited and to-visit a partition, and counts one more removal exactly when the message is not the one being marked |
| UnboundedStore.PruneStep | spring-integration-core/src/main/java/org/springframework/integration/store/UnboundedMessageGroupStore.java:159-161 | visiting a marked message other than the one being marked deletes exactly it from the delegate's group |
| UnboundedStore.PruneDone | spring-integration-core/src/main/java/org/springframework/integration/store/UnboundedMessageGroupStore.java:156-163 | once every marked message has been visited, the delegate's group is the marked-and-pruned group |
| UnboundedStore.UnboundedMessageGroupStore.constructor | spring-integration-core/src/main/java/org/springframework/integration/store/UnboundedMessageGroupStore.java:53-56 | the store wraps the given delegate and starts with no shadow groups |
| UnboundedStore.UnboundedMessageGroupStore.GetMessageCountForAllMessageGroups | spring-integration-core/src/main/java/org/springframework/integration/store/UnboundedMessageGroupStore.java:62-64 | the count is the delegate's physical total over all groups |
| UnboundedStore.UnboundedMessageGroupStore.GetMarkedMessageCountForAllMessageGroups | spring-integration-core/src/main/java/org/springframework/integration/store/UnboundedMessageGroupStore.java:70-72 | the count is the delegate's physical total of marked messages |
| UnboundedStore.UnboundedMessageGroupStore.GetMessageGroupCount | spring-integration-core/src/main/java/org/springframework/integration/store/UnboundedMessageGroupStore.java:78-80 | the count is the delegate's number of groups |
| UnboundedStore.UnboundedMessageGroupStore.GetMessageGroup | spring-integration-core/src/main/java/org/springframework/integration/store/UnboundedMessageGroupStore.java:87-97 | a new key gets a shadow with removed = 0; an existing shadow keeps its count; the group returned is the delegate's group plus that count |
| UnboundedStore.UnboundedMessageGroupStore.AddMessageToGroup | spring-integration-core/src/main/java/org/springframework/integration/store/UnboundedMessageGroupStore.java:105-115 | the delegate adds the message; the shadow is created with 0 or keeps its count; the size grows by one unless the message was already there |
| UnboundedStore.UnboundedMessageGroupStore.MarkMessageGroup | spring-integration-core/src/main/java/org/springframework/integration/store/UnboundedMessageGroupStore.java:122-127 | whole-group marking passes through to the delegate and leaves the logical size unchanged |
| UnboundedStore.UnboundedMessageGroupStore.RemoveMessageFromGroup | spring-integration-core/src/main/java/org/springframework/integration/store/UnboundedMessageGroupStore.java:135-141 | removal passes through and does not count as removed, so the size drops by one when the message was there |
| UnboundedStore.UnboundedMessageGroupStore.MarkMessageFromGroup | spring-integration-core/src/main/java/org/springframework/integration/store/UnboundedMessageGroupStore.java:152-166 | with no shadow for the key it fails and changes nothing; otherwise only the newly marked message stays marked, the size is unchanged, and every deleted message is counted in removed |
| UnboundedStore.UnboundedMessageGroupStore.PruneMarked | spring-integration-core/src/main/java/org/springframework/integration/store/UnboundedMessageGroupStore.java:157-163 | the loop deletes every marked message other than the one kept and adds exactly their number to removed |
| UnboundedStore.UnboundedMessageGroupStore.RemoveMessageGroup | spring-integration-core/src/main/java/org/springframework/integration/store/UnboundedMessageGroupStore.java:172-175 | both the delegate's group and the shadow for the key are gone |
| UnboundedStore.UnboundedMessageGroupStore.ExpireMessageGroups | spring-integration-core/src/main/java/org/springframework/integration/store/UnboundedMessageGroupStore.java:190-204 | it returns the delegate's expired count; when that is positive, exactly the shadows whose delegate group is now empty are dropped, otherwise none |
| ReleaseStrategy.SequenceNumber | spring-integration-core/src/main/java/org/springframework/integration/aggregator/UnboundedSequenceReleaseStrategy.java:61-66 | with no custom header the standard sequence number; otherwise the named header: absent gives null, a non-Integer value fails the cast |
| ReleaseStrategy.SequenceInt | spring-integration-core/src/main/java/org/springframework/integration/aggregator/UnboundedSequenceReleaseStrategy.java:47-53 | unboxing the sequence number fails exactly when it is null or the cast fails |
| JavaLang.Predecessor | spring-integration-core/src/main/java/org/springframework/integration/aggregator/UnboundedSequenceReleaseStrategy.java:53 | `tail - 1` on an int: one less, except that the minimum wraps to the maximum |
| ReleaseStrategy.CanReleasePartial | spring-integration-core/src/main/java/org/springframework/integration/aggregator/UnboundedSequenceReleaseStrategy.java:43-59 | with nothing marked, release iff the head of the sorted list is number 1; with marked messages, release iff the first marked is the head's predecessor; an unreadable number propagates as an error; an empty sorted list fails with an index-out-of-bounds error before anything is read |
| ReleaseStrategy.UnboundedSequenceReleaseStrategy.constructor | spring-integration-core/src/main/java/org/springframework/integration/aggregator/UnboundedSequenceReleaseStrategy.java:39-41 | partial release starts on and the standard header is used |
| ReleaseStrategy.UnboundedSequenceReleaseStrategy.SetSequenceHeader | spring-integration-core/src/main/java/org/springframework/integration/aggregator/UnboundedSequenceReleaseStrategy.java:73-76 | the header is set and the comparator sorts by the same header |
| ReleaseStrategy.UnboundedSequenceReleaseStrategy.SetReleasePartialSequences | spring-integration-core/src/main/java/org/springframework/integration/aggregator/UnboundedSequenceReleaseStrategy.java:78-83 | false fails with UnsupportedOperation "Release Partial Sequences Must be True"; true changes nothing |
| Resequencer.RuleAt | spring-integration-core/src/main/java/org/springframework/integration/aggregator/UnboundedSequenceReleaseStrategy.java:46-54 | on a group whose last released message is number last, the rule lets the lowest waiting message out exactly when it is number last + 1 |
| Resequencer.Release | spring-integration-core/src/main/java/org/springframework/integration/aggregator/UnboundedSequenceReleaseStrategy.java:43-59 | a release pass keeps the group well formed and numbered and only ever takes messages out of the unmarked set |
| Resequencer.Arrive | spring-integration-core/src/main/java/org/springframework/integration/store/UnboundedMessageGroupStore.java:105-115 | an arrival leaves the message in the group, keeps the removed count and grows the size by one unless it was there |
| Resequencer.MarkResumable | spring-integration-core/src/main/java/org/springframework/integration/store/UnboundedMessageGroupStore.java:152-166 | marking the next message in line leaves one marked message, numbered one higher, and every waiting number above it |
| Resequencer.ReleaseRun | spring-integration-core/src/main/java/org/springframework/integration/aggregator/UnboundedSequenceReleaseStrategy.java:46-54 | a pass sends last+1, last+2, … while present, leaves the rest waiting, leaves the last sent as the only marked message, keeps the size and counts each pruned message |
| Resequencer.FeedInOrder | spring-integration-core/src/test/java/org/springframework/integration/aggregator/UnboundedResequencerTests.java:63-96 | for distinct positive numbers in any arrival order, what went out is 1..sent in order, sent+1 has not arrived, everything above waits, only the last sent is marked, and the size counts every arrival |
| Resequencer.FeedPermutation | spring-integration-core/src/test/java/org/springframework/integration/aggregator/UnboundedResequencerTests.java:63-96 | when the arrivals are a permutation of 1..N, all N go out in order, nothing waits and the size is N |
| Resequencer.SentExactly | spring-integration-core/src/test/java/org/springframework/integration/aggregator/UnboundedResequencerTests.java:63-96 | for arrivals with distinct positive numbers, when a list names the arrivals 1..k in order and k+1 has not arrived, exactly that list has gone out |
| Resequencer.SettledExactly | spring-integration-core/src/test/java/org/springframework/integration/aggregator/UnboundedResequencerTests.java:89-95 | when every arrival has been sent, nothing waits, the last one sent is the only marked message and the size counts every arrival |
| Resequencer.ArriveOne | spring-integration-core/src/test/java/org/springframework/integration/aggregator/UnboundedResequencerTests.java:72-75 | 1 arriving first goes out at once |
| Resequencer.ArriveOneThree | spring-integration-core/src/test/java/org/springframework/integration/aggregator/UnboundedResequencerTests.java:76 | 3 after 1 waits |
| Resequencer.ArriveOneThreeTwoFive | spring-integration-core/src/test/java/org/springframework/integration/aggregator/UnboundedResequencerTests.java:76-87 | after 1, 3, 2, 5, messages 1, 2, 3 have gone out and 5 waits |
| Resequencer.ArriveOneThreeTwoFiveFour | spring-integration-core/src/test/java/org/springframework/integration/aggregator/UnboundedResequencerTests.java:89-95 | 4 brings out 4 and 5, so 1 to 5 have gone out in order |
| Resequencer.AllFiveReleased | spring-integration-core/src/test/java/org/springframework/integration/aggregator/UnboundedResequencerTests.java:89-95 | after 1, 3, 2, 5, 4 the group still has size 5, only 5 is marked and nothing waits |
| Resequencer.ArriveTwo | spring-integration-core/src/test/java/org/springframework/integration/aggregator/UnboundedResequencerTests.java:106-109 | with a custom header, 2 arriving first waits |
| Resequencer.ArriveTwoOne | spring-integration-core/src/test/java/org/springframework/integration/aggregator/UnboundedResequencerTests.java:110-119 | 1 then brings out 1 and 2 |
| Resequencer.ArriveTwoOneFour | spring-integration-core/src/test/java/org/springframework/integration/aggregator/UnboundedResequencerTests.java:121-124 | 4 waits for 3 |
| Resequencer.ArriveTwoOneFourThree | spring-integration-core/src/test/java/org/springframework/integration/aggregator/UnboundedResequencerTests.java:125-134 | 3 brings out 3 and 4 |
| JavaLang.Successor | spring-integration-core/src/main/java/org/springframework/integration/handler/CircuitBreakerBeanPostProcessor.java:128 | `incrementAndGet` on an int: one more, except that the maximum wraps to the minimum |
| CircuitBreaker.OpenError | spring-integration-core/src/main/java/org/springframework/integration/handler/CircuitBreakerBeanPostProcessor.java:120 | the rejection is a MessagingException whose message is "Circuit Breaker is Open for " followed by the bean name |
| CircuitBreaker.IsOpen | spring-integration-core/src/main/java/org/springframework/integration/handler/CircuitBreakerBeanPostProcessor.java:118-119 | the breaker is open exactly when the failures reach the threshold and less than halfOpenAfter has elapsed since the last failure |
| CircuitBreaker.Invoked | spring-integration-core/src/main/java/org/springframework/integration/handler/CircuitBreakerBeanPostProcessor.java:116-132 | open (failures ≥ threshold and less than halfOpenAfter since the last failure): rejected, handler not reached, nothing changes; success resets failures; a MessagingException adds one failure, records the time and is rethrown; any other exception changes nothing |
| CircuitBreaker.BelowThresholdProceeds | spring-integration-core/src/main/java/org/springframework/integration/handler/CircuitBreakerBeanPostProcessor.java:118-119 | below the threshold the handler is always reached, whatever the time |
| CircuitBreaker.SuccessCloses | spring-integration-core/src/main/java/org/springframework/integration/handler/CircuitBreakerBeanPostProcessor.java:123-125 | after a success the breaker is closed for every later call |
| CircuitBreaker.FailuresTrip | spring-integration-core/src/main/java/org/springframework/integration/handler/CircuitBreakerBeanPostProcessor.java:127-131 | each handler failure adds exactly one; threshold failures in a row open the breaker for halfOpenAfter after the last |
| CircuitBreaker.HalfOpenTrial | spring-integration-core/src/test/java/org/springframework/integration/handler/CircuitBreakerTests.java:57-61 | after the wait one trial call reaches the handler, and if it fails the breaker is open again at once |
| CircuitBreaker.BreakerScenario | spring-integration-core/src/test/java/org/springframework/integration/handler/CircuitBreakerTests.java:38-65 | threshold 2, 100 ms: two handler failures, a rejection naming aBean, a failing trial after the wait, another rejection, a successful trial |
| CircuitBreaker.PostProcessAfterInitialization | spring-integration-core/src/main/java/org/springframework/integration/handler/CircuitBreakerBeanPostProcessor.java:75-100 | beans that are not handlers, or whose name matches no pattern, are returned unchanged |
| BeanPostProcessing.Advise | spring-integration-core/src/main/java/org/springframework/integration/handler/CircuitBreakerBeanPostProcessor.java:83-99 | an eligible bean gets the advisor added when it already is a proxy and a new proxy otherwise, when the pointcut applies; otherwise it is returned as is |
| CircuitBreaker.CircuitBreakerInterceptor.constructor | spring-integration-core/src/main/java/org/springframework/integration/handler/CircuitBreakerBeanPostProcessor.java:110-114 | the interceptor starts with no failures |
| CircuitBreaker.CircuitBreakerInterceptor.Invoke | spring-integration-core/src/main/java/org/springframework/integration/handler/CircuitBreakerBeanPostProcessor.java:116-132 | the new failures and last-failure time, and how the call ends, are those of Invoked |
| MessageSourceMetrics.Intercept | spring-integration-jmx/src/main/java/org/springframework/integration/monitor/SimpleMessageSourceMetrics.java:99-126 | a receive returning a message adds one to messageCount, returning null to noWorkCount, throwing to pollFailureCount; with an object name a PollFailed notification numbered by the new count and carrying the exception's message is sent (a missing publisher throws); other methods change nothing |
| MessageSourceMetrics.ReceiveCountsOnce | spring-integration-jmx/src/main/java/org/springframework/integration/monitor/SimpleMessageSourceMetrics.java:104-123 | each receive adds one to exactly one counter, chosen by how it ended |
| MessageSourceMetrics.PollsCount | spring-integration-jmx/src/main/java/org/springframework/integration/monitor/SimpleMessageSourceMetrics.java:114-121 | over a series of receives the counters grow by the number of calls and the failures, and failure k is announced as notification k after the starting count |
| MessageSourceMetrics.AlwaysFailsNotifies | spring-integration-jmx/src/test/java/org/springframework/integration/monitor/MessageSourcePollerExceptionTests.java:87-94 | a source that always fails makes the first poll send a PollFailed notification from the object name carrying "AlwaysFails" |
| MessageSourceMetrics.SimpleMessageSourceMetrics.constructor | spring-integration-jmx/src/main/java/org/springframework/integration/monitor/SimpleMessageSourceMetrics.java:33-52 | all three counters start at zero with no object name and no publisher |
| MessageSourceMetrics.SimpleMessageSourceMetrics.SetObjectName | spring-integration-jmx/src/main/java/org/springframework/integration/monitor/SimpleMessageSourceMetrics.java:75-77 | only the object name changes |
| MessageSourceMetrics.SimpleMessageSourceMetrics.SetNotificationPublisher | spring-integration-jmx/src/main/java/org/springframework/integration/monitor/SimpleMessageSourceMetrics.java:128-131 | only the publisher changes |
| MessageSourceMetrics.SimpleMessageSourceMetrics.Reset | spring-integration-jmx/src/main/java/org/springframework/integration/monitor/SimpleMessageSourceMetrics.java:80-84 | all three counters are zero and nothing else changes |
| MessageSourceMetrics.SimpleMessageSourceMetrics.GetMessageCount | spring-integration-jmx/src/main/java/org/springframework/integration/monitor/SimpleMessageSourceMetrics.java:86-88 | answers messageCount |
| MessageSourceMetrics.SimpleMessageSourceMetrics.GetNoWorkCount | spring-integration-jmx/src/main/java/org/springframework/integration/monitor/SimpleMessageSourceMetrics.java:90-92 | answers noWorkCount |
| MessageSourceMetrics.SimpleMessageSourceMetrics.GetPollFailureCount | spring-integration-jmx/src/main/java/org/springframework/integration/monitor/SimpleMessageSourceMetrics.java:94-96 | answers pollFailureCount |
| MessageSourceMetrics.SimpleMessageSourceMetrics.Invoke | spring-integration-jmx/src/main/java/org/springframework/integration/monitor/SimpleMessageSourceMetrics.java:99-126 | the counters, the notifications handed to the publisher and how the call ends are those of Intercept |
| Retry.Normalize | spring-integration-core/src/main/java/org/springframework/integration/handler/RetryBeanPostProcessor.java:75-80 | the result ends with the suffix; a name that already does is kept, any other gets the suffix appended once |
| Retry.NormalizeIdempotent | spring-integration-core/src/main/java/org/springframework/integration/handler/RetryBeanPostProcessor.java:75-80 | normalising twice is normalising once |
| Retry.NormalizedSetStep | spring-integration-core/src/main/java/org/springframework/integration/handler/RetryBeanPostProcessor.java:74-81 | each loop turn adds the normalised name to the set |
| Retry.NormalizedSetIncludes | spring-integration-core/src/main/java/org/springframework/integration/handler/RetryBeanPostProcessor.java:73-82 | every given name is in the set, normalised |
| Retry.NormalizedSetSource | spring-integration-core/src/main/java/org/springframework/integration/handler/RetryBeanPostProcessor.java:73-82 | every name in the set is a given name, normalised |
| Retry.NormalizedSetSuffixed | spring-integration-core/src/main/java/org/springframework/integration/handler/RetryBeanPostProcessor.java:73-82 | every stored name ends with the suffix |
| Retry.NormalizedSetMembers | spring-integration-core/src/main/java/org/springframework/integration/handler/RetryBeanPostProcessor.java:73-82 | a name is in the set iff it is the normalised form of some given name |
| Retry.NormalizedSetHolds | spring-integration-core/src/main/java/org/springframework/integration/handler/RetryBeanPostProcessor.java:75-80 | a name is in the set iff it ends with the suffix and was given as it is, or without the suffix |
| Retry.NormalizedSetSize | spring-integration-core/src/main/java/org/springframework/integration/handler/RetryBeanPostProcessor.java:73-82 | the set holds at most as many names as were given |
| Retry.NormalizedSetIdempotent | spring-integration-core/src/main/java/org/springframework/integration/handler/RetryBeanPostProcessor.java:73-82 | normalising an already normalised list gives the same set |
| Retry.PostProcessAfterInitialization | spring-integration-core/src/main/java/org/springframework/integration/handler/RetryBeanPostProcessor.java:111-133 | non-handlers and handlers whose name is not in the set are returned unchanged; with no set given a handler meets a null set |
| Retry.RetryBeanPostProcessor.constructor | spring-integration-core/src/main/java/org/springframework/integration/handler/RetryBeanPostProcessor.java:58-69 | the handler-name set starts null and the alias suffix is fixed at construction |
| Retry.RetryBeanPostProcessor.SetHandlers | spring-integration-core/src/main/java/org/springframework/integration/handler/RetryBeanPostProcessor.java:71-83 | a null array fails with "Handlers may not be null" and changes nothing; otherwise the set is the normalised set of the names |
| RemoteFileTemplate.DirectoryPrefix | spring-integration-file/src/main/java/org/springframework/integration/file/remote/AbstractRemoteFileTemplate.java:155-158 | the directory followed by the separator only if it does not already end with it |
| RemoteFileTemplate.RemoteFilePath | spring-integration-file/src/main/java/org/springframework/integration/file/remote/AbstractRemoteFileTemplate.java:153-160 | the remote path is the directory prefix (the separator added only when missing) followed by the file name |
| RemoteFileTemplate.RemoteFilePathJoins | spring-integration-file/src/main/java/org/springframework/integration/file/remote/AbstractRemoteFileTemplate.java:153-160 | the remote path starts with the directory, ends with the file, and has the separator just before the file, added only when the directory lacks it |
| RemoteFileTemplate.RemoteFilePathExamples | spring-integration-file/src/test/java/org/springframework/integration/file/remote/AbstractRemoteFileTemplateTests.java:86-116 | "bar" and "qux" give "bar/qux"; "bar" and "baz" give "bar/baz" |
| RemoteFileTemplate.Create | spring-integration-file/src/main/java/org/springframework/integration/file/remote/AbstractRemoteFileTemplate.java:69-87 | fails exactly when the resolver or one of the four path expressions is null, checked in that order, each with its own "may not be null" message; a null command expression is accepted; on success the template holds the given four expressions, the suffix ".writing" and the separator "/" |
| RemoteFileTemplate.Get | spring-integration-file/src/main/java/org/springframework/integration/file/remote/AbstractRemoteFileTemplate.java:143-187 | a null local directory or file fails first with its own message; an existing local file fails with "already exists" before anything is opened; a failure to open the temporary file propagates unchanged; a null remote directory or file then fails with "resolved to null"; a checked read failure is wrapped, any other is rethrown; a failed rename fails; it succeeds exactly when none of these happens, and then the joined remote path has been read into the ".writing" file and the local file is returned |
| RemoteFileTemplate.ExistingLocalFileRefused | spring-integration-file/src/main/java/org/springframework/integration/file/remote/AbstractRemoteFileTemplate.java:184-186 | an existing local file always fails with a MessagingException starting "Local file ", whatever the remote side would do |
| RemoteFileTemplate.GetExample | spring-integration-file/src/test/java/org/springframework/integration/file/remote/AbstractRemoteFileTemplateTests.java:72-86 | the template test's get reads "bar/qux" |

## Left out

- Concurrency is not modelled: `synchronized`, `ConcurrentHashMap`, `volatile` and `AtomicInteger` are single-threaded state here.
- Logging is not modelled.
- The base message store (`SimpleMessageStore`) is not part of this model. Its group lookup is a pure read that answers an empty group for an unknown key. Marking or removing in an unknown group changes nothing.
- The base store's expiry sweep and its callbacks are not modelled. `registerMessageGroupExpiryCallback` only passes the callback to the base store. The sweep's outcome (the count and the groups left) is a parameter of `ExpireMessageGroups`.
- UnboundedStore.UnboundedMessageGroupStore.MarkMessageGroup takes the group's key instead of the group. The base store identifies the group by its id.
- UnboundedStore.UnboundedMessageGroup.Size: the removed count and the sizes are unbounded. Java's `int` overflow after 2^31 removals is not modelled. The same holds for the aggregate counters of DelegateStore.
- The shadow group is modelled as a count kept beside the base store's current group for the key, i.e. the model assumes the base store's groups are live views. The source keeps the group object the base store returned when the shadow was created or last refreshed; with a base store that returns copies, that object can go stale, and that behaviour is not captured.
- markMessageFromGroup iterates over a snapshot of the marked collection. The source iterates over the collection the base store returns, so the live-view semantics of that collection are not modelled.
- The other pass-through members of the shadow group (`canAdd`, `getGroupId`, `getOne`, `getTimestamp`, …) only forward to the base store's group. They are not modelled.
- The base release strategy, `SequenceSizeReleaseStrategy`, is not part of this model. Its sorting is `SortedBy`, which puts a lowest-numbered message first. Its comparator is kept only as the header it sorts by. The release of complete sequences is not modelled.
- The resequencing message handler is not part of this model. `Feed` and `Release` are ghost functions for the driver. A failing rule (an exception in the handler) ends a release pass as a refusal would. The lemmas assume every arrival has an `int` sequence number.
- CircuitBreaker.IsOpen: time is an unbounded integer. The `long` overflow of `now - lastFailure` is not modelled.
- AOP is not modelled: proxy creation, `AopUtils.canApply` and the pattern matching of `PatternMatchUtils` are parameters.
- RetryTemplate execution, back-off and the stateless retry interceptor are not modelled. Neither are `setBackofPolicy`, `setBeanFactory` and the alias canonicalisation in `afterPropertiesSet`: they are library calls.
- The value of the handler alias suffix is not part of this model. It is a parameter.
- Retry.RetryBeanPostProcessor.SetHandlers: a null element in the array would throw a NullPointerException in the source. The model's list has no null elements.
- JMX notification delivery is not modelled: the publisher is a flag, and the notifications handed to it are a list.
- The metrics' `name`/`source` accessors and `toString` are plain field access and formatting. They are not modelled.
- `getMessageSource` is not modelled.
- `AbstractRemoteFileTemplate` file I/O is not modelled. The outcome of opening the temporary file, of the session read, of the rename and of `File.exists` are parameters. The local path join `new File(directory, file)` is not modelled: the local file's path is a parameter, independent of the evaluated names. Closing the temporary stream (whose failure the source ignores), the session-factory resolution and `getSession` failures are not modelled. SpEL evaluation, `setBeanFactory`, `getCommand` and the unfinished `execute` and `ls` are not modelled.
