# SpectatorD, modelled and proved in Dafny

SpectatorD collects metrics on one machine and sends them to an Atlas aggregator. This project models the parts of it
that carry hard guarantees and proves those guarantees for every input, every run and every interleaving:

* **Percentile buckets** (`BucketTable`, `PercentileBuckets`, `Percentiles`, `PercentileAccuracy`): the generator's loop
  builds exactly the closed-form table; the branch-and-shift index is compared with a linear search, with its exact set
  of exceptions; the interpolated percentile is within one bucket width plus three of the true sample.
* **Sending** (`Sender`, `Responses`): the thread pool, the shared buffers, the response list and the blocking counter
  as a protocol whose every interleaving is safe, ends, and answers every batch once; the measurements are conserved.
* **Payloads** (`Smile`, `Payload`, `PayloadTags`): the encoder of the Smile binary JSON format and the payload builder,
  against a decoder; what is read back, and exactly when.
* **Identity** (`StringPool`, `Tags`, `Ids`): interned strings, the small-vector tag map with its union and its in-place
  updates, and why comparing bytes is comparing maps.
* **Meter lifetimes** (`Meters`, `MeterSteps`, `Registry`, `Expiry`, `PercentileCache`, `ExpiringCache`,
  `BucketCounters`): what measuring, resetting and expiry do to the sums, also in the middle of a recording call; when the
  cache of percentile meters cannot be noticed, with exact bounds; and from samples through the registry's bucket counters
  to a percentile.
* **Lock-free updates and growing counters** (`AtomicNumber`, `Monotonic`, `Sampled`): compare-and-swap loops in any
  interleaving, wrap-around deltas, sampled rates, with values set at any point of a measurement.
* **Line protocols** (`Protocol`, `LineProtocol`, `LineBuffer`): the pointer loops of the parsers, their round trips and
  their agreement. `Bytes` holds the byte and text types.

Doubles are reals, with NaN and infinities as separate cases where the code meets them; a 64-bit pattern where only the
bits matter. Machine integers wrap where the code lets them. Clocks are one non-decreasing clock in nanoseconds; each
section under a mutex is one atomic step. Code that works by changing things in place is a class or a method over
arrays, proved against functions on values, about which the lemmas are stated.

## Findings

* `spectator/smile.cc:63` writes `kTokenInt32` (0x00) where the other branches write `kByteInt32` (0x24). Integers from
  2^19 up to 2^26 therefore come out as bytes that no decoder accepts. Five bytes hold 34 bits, and the doubling in front
  of them loses the top bit: a reader that checks the range of a 32-bit integer, as the one here does, rejects those from
  2^31 up to 2^33 too, and rejects larger ones or reads them as another integer, depending on their low 34 bits. A payload is readable exactly when its string table has fewer than 2^19
  entries and no tag count is in the first range.
* The fast bucket index is one higher than the first bound above the value at 15 and at the three integers below each
  power of four from 4^3 to 4^30. The table generator's shift leaves the int64 range at exponent 62; with
  two's-complement wrap-around the group of 4^31 is empty and the table has its 276 entries.
* `add_double` (`spectator/atomicnumber.h:15-16`) reads the cell twice. A reset between the reads, or between the second
  read and the exchange, can lose or invent an update; the amount is the sum of second minus first reads.
  `Measure` of the unsigned counter reads its value twice as well (`spectator/monotonic_counter_uint.cc:27` and `:42`),
  and growth that is set between the reads is in no delta.
* The sums of doubles of a timer or distribution summary (`totalSq_`, and a summary's `total_`) are added to by `add_double`
  and reset by `Measure`, so a reset inside an addition makes them drift as above; the count and a timer's `total_` do
  not. A measurement that falls between the updates of one `Record` call reports its count without its amount, and a
  meter whose count is zero is not measured (`spectator/timer.cc:13-16`): the amount stays behind until some later call
  counts again. Measurements that fall inside no call do neither.
* A meter handle that outlives its meter loses what is recorded through it, and so does a meter that was last updated
  before a pause in measuring longer than the ttl.
* The percentile cache needs a ttl of at least 120 seconds plus the largest gap between its expiry runs, and no less. For
  distribution summaries negative amounts defeat every ttl: they refresh the cache entry but not the meter, which then
  grows older than any ttl while it is cached.
* `kOverflow` (`spectator/monotonic_counter_uint.cc:7`) is documented as 2^63 but is 9223372000000000000; the model
  follows the constant.
* `MonotonicSampled::Set` accepts a repeated timestamp (`spectator/monotonic_sampled.cc:19`). A rate is infinite exactly
  when there is a previous point, no point accepted since has a later timestamp, and the value differs, with or without a
  measurement in between; the growth at such a rate is in no finite rate.
* A measurement line in which no key follows the last separator, and that separator is the last byte, makes the number
  start one byte behind the end of the text (`server/spectatord.cc:287-305`), and only such a line does.
* A packet that begins with a newline hands an empty line to the parser (`server/spectatord.cc:53-60`), which reads the
  byte behind the NUL of that line (`server/spectatord.cc:604-606`).
* The aggregator's `errorCount` is not checked: a count that is negative or above the batch size keeps the sums modulo
  2^64 but not the status counters.

## Model

| member | source | states |
|---|---|---|
| `BucketTable.Generator.Init` | tools/gen_perc_bucket_values.cc:12-35 | The nested loops end with exactly 276 bounds and 32 index entries, equal to the closed-form table. |
| `BucketTable.StartsPointAtPowers` | tools/gen_perc_bucket_values.cc:20-33 | The index entry of every k up to 30 points at the bound 4^k. |
| `BucketTable.Gaps` | tools/gen_perc_bucket_values.cc:22-33 | Bounds are delta apart inside a group and delta + 3 at its end (delta + 1 in the group of 4); the last gap, to INT64_MAX, is larger. |
| `BucketTable.BoundsIncrease` | tools/gen_perc_bucket_values.cc:12-35 | The whole table is strictly increasing. |
| `PercentileBuckets.PowerOf4BelowIs` | spectator/percentile_buckets.cc:20-30 | The shifts find the largest power of four not above the value. |
| `PercentileBuckets.IndexOf` | spectator/percentile_buckets.cc:10-35 | Every table access is in range and the result is a bucket, for every int64. |
| `PercentileBuckets.FastIndexExact` | spectator/percentile_buckets.cc:10-35 | The index is the first bound above the value, except that it is one greater exactly at 15 and at the three integers below 4^3 to 4^30. |
| `PercentileBuckets.IndexMonotone` | spectator/percentile_buckets.cc:10-35 | The index never decreases. |
| `PercentileBuckets.BucketError` | spectator/percentile_buckets.cc:91 | A value is below its bucket's bound, by at most (v + 11) / 3 outside the last bucket. |
| `PercentileBuckets.BucketErrorTight` | spectator/percentile_buckets.cc:91 | That bound is reached three below every power of four from 4^3 to 4^30. |
| `Percentiles.Percentiles` | spectator/percentile_buckets.cc:37-81 | The interpolating double loop writes every slot. For 0 < p <= 100 and any samples, the value divides the bucket that reaches p in the proportion in which p * n divides its samples. |
| `Percentiles.Percentile` | spectator/percentile_buckets.cc:83-89 | The single-value form gives the same percentile, in the same proportion. |
| `Percentiles.PercentileDivides` | spectator/percentile_buckets.cc:53-71 | The percentile is (p * n - samples below) / (samples in the bucket) of the way from the lower to the upper bound of its bucket, written as a product. |
| `Percentiles.BucketOfPercent` | spectator/percentile_buckets.cc:53-57 | That bucket is the only one with samples below < p * n / 100 <= samples up to and including it. |
| `Percentiles.FillFrom` | spectator/percentile_buckets.cc:58-63 | The inner loop fills exactly the slots that the bucket reaches. |
| `Percentiles.WrittenSlot` | spectator/percentile_buckets.cc:55-62 | What one turn writes is the percentile that `PercentileDivides` is about, and it divides by zero only as 0 / 0. |
| `Percentiles.NoDivisionByZero` | spectator/percentile_buckets.cc:60 | The denominator is zero at most for p equal to the share already reached. |
| `PercentileAccuracy.CountSamples` | spectator/percentile_buckets.cc:10-35 | Counting samples by their index gives the tally of the buckets. |
| `PercentileAccuracy.BucketsFollowOrder` | spectator/percentile_buckets.cc:10-35 | Everything in earlier buckets is smaller and everything not above q is in the buckets up to q's. |
| `PercentileAccuracy.KthSmallestExists` | spectator/percentile_buckets.h:15-27 | The sample of a rank that the percentile promises exists. |
| `PercentileAccuracy.KthSmallestUnique` | spectator/percentile_buckets.h:15-27 | There is only one such sample value. |
| `PercentileAccuracy.RankBounds` | spectator/percentile_buckets.h:15-27 | The rank of p among n samples is p * n / 100 rounded up, and lies between 1 and n. |
| `PercentileAccuracy.ReachingIsBucketOf` | spectator/percentile_buckets.cc:53-71 | The loop stops in the bucket of the sample of that rank. |
| `PercentileAccuracy.PercentileInBucket` | spectator/percentile_buckets.cc:53-71 | For 0 < p <= 100 the result is a number above the bucket's lower bound and at most its upper bound. |
| `PercentileAccuracy.NaNExactly` | spectator/percentile_buckets.cc:56-61 | The result is NaN exactly when there are no samples, or p is 0 and the first bucket is empty. |
| `PercentileAccuracy.ZeroPercentile` | spectator/percentile_buckets.cc:56-61 | At p = 0 the result is 0 if the first bucket holds samples, and NaN otherwise. |
| `PercentileAccuracy.PercentileMonotone` | spectator/percentile_buckets.cc:37-81 | Larger percentiles give results that are not smaller. |
| `PercentileAccuracy.ValueNearBucket` | spectator/percentile_buckets.cc:10-35 | A value is at most 3 below the lower bound of its bucket, and not below it outside the exceptions. |
| `PercentileAccuracy.Accuracy` | spectator/percentile_buckets.cc:10-89 | End to end: the percentile computed from the counts alone lies in the bucket of the sample of that rank and differs from it by at most the bucket's width plus 3. |
| `Sender.MakeBatches` | spectator/publisher.h:427-446 | The batches are consecutive, none is empty, all but the last are full, and they cover the measurements. |
| `Sender.BufferAvailable` | spectator/publisher.h:457-461 | A task that starts finds a buffer. |
| `Sender.BuffersExclusive` | spectator/publisher.h:456-477 | Two tasks never hold the same buffer, and a held buffer is not on the list. |
| `Sender.StepInv` | spectator/publisher.h:447-481 | Every atomic step of every interleaving keeps the protocol's invariant: buffers, tasks and responses are each in exactly one place. |
| `Sender.RunInv` | spectator/publisher.h:447-481 | So does every run. |
| `Sender.EveryBatchAnswered` | spectator/publisher.h:429-481 | No run crashes; at any point of it each response on the list is the size of its batch and the answer that a Send step of the run gave for it; when Wait returns there is exactly one per batch, and the sizes sum to the measurements. |
| `Sender.SentOnce` | spectator/publisher.h:456-472 | A task that is about to be sent has no response yet and is with no other worker, so there is one answer per task. |
| `Sender.Progress` | spectator/publisher.h:447-481 | No deadlock: until Wait returns some step is enabled. |
| `Sender.RunsEnd` | spectator/publisher.h:447-481 | Each step uses up one unit of a bounded amount of work; when it is used up Wait returns. |
| `Responses.BatchConserved` | spectator/publisher.h:318-397 | Sent plus failed is the batch size modulo 2^64 always, and exactly, with the status counters charged for it, if and only if the error count is between 0 and the batch size. |
| `Responses.Publisher.HandleAggrResponse` | spectator/publisher.h:318-397 | The branches on status and body compute sent and failed, which `OutcomeIsRefused` pins, and charge the counters, which `ChargedApart` pins. |
| `Responses.OutcomeIsRefused` | spectator/publisher.h:318-397 | Failed is 0 for status 200, the error count where one came back with 201 to 499, and the size otherwise; sent is the rest of the batch; both as 64-bit words. |
| `Responses.ChargedApart` | spectator/publisher.h:318-397 | For an honest answer the sent counter grows by what was accepted, the invalid one by the error count, and of the dropped ones the HTTP one for a status below 200 other than -1 or from 500 on, the other one for the rest. |
| `Responses.FourParts` | spectator/publisher.h:318-397 | Over any answers, those four parts add up to the sizes. |
| `Responses.Publisher.SumResponses` | spectator/publisher.h:483-493 | Failed and sent are the sums of what was refused and of the rest, modulo 2^32 always and exactly for honest answers; each status counter grows by its own sum. |
| `Responses.Publisher.AfterWait` | spectator/publisher.h:427-493 | After any interleaving the sums and counters are those of the batches with the answers that the run gave to them, and every measurement is counted once as sent or failed. |
| `Smile.IntRoundTripExactly` | spectator/smile.cc:31-69 | An integer comes back if and only if it is below 2^19, or from 2^26 and below 2^31. |
| `Smile.UnencodableIsLost` | spectator/smile.cc:31-69 | Any other integer is rejected exactly when its low 63 bits are from 2^19 up to 2^26 or its low 34 bits from 2^31 up to 2^33, and read as another integer otherwise. |
| `Smile.DoubleRoundTrip` | spectator/smile.cc:77-112 | The ten-byte packing of 64 bits is inverted exactly. |
| `Smile.StringRoundTrip` | spectator/smile.cc:114-141 | An ASCII string of any length comes back; the end marker cannot occur inside it. |
| `Smile.TokenRoundTripExactly` | spectator/smile.cc:25-141 | Every token comes back and leaves the following bytes alone exactly when it is encodable. |
| `Smile.StreamRoundTripExactly` | spectator/smile.cc:25-141 | A stream of tokens decodes to itself exactly when every integer in it is encodable. |
| `Smile.SmilePayload.Init` | spectator/smile.h:14-19 | Starts the document with the header and the array mark. |
| `Smile.SmilePayload.AppendInt` | spectator/smile.cc:25-29 | Appends the encoding of one non-negative int. |
| `Smile.SmilePayload.AppendSize` | spectator/smile.cc:31-69 | The branches of shifts and masks append the encoding of one integer. |
| `Smile.IntBytesShape` | spectator/smile.cc:31-69 | The literal bytes of each branch, type byte, seven-bit groups and last byte, by the size of the doubled integer. |
| `Smile.TinyBytes` | spectator/smile.cc:34-38 | The one byte of the smallest integers. |
| `Smile.SmilePayload.AppendDouble` | spectator/smile.cc:77-112 | The shifts and casts append the ten seven-bit digits of the bits. |
| `Smile.SmilePayload.AppendString` | spectator/smile.cc:114-141 | Appends the encoding of one string. |
| `Smile.StringBytesShape` | spectator/smile.cc:114-141 | The literal type bytes of empty, short and long strings, and those that frame the document. |
| `Smile.SmilePayload.Result` | spectator/smile.h:24-28 | Closes the array: the bytes are header, tokens and end mark. |
| `Payload.PayloadRoundTripExactly` | spectator/publisher.h:186-298 | For every batch, common tags and table order, the payload is rejected if its tokens are not encodable; otherwise the reader gets one record per measurement: the common tags, its own tags and name -> its name, key for key and value for value, operation 0 exactly for the five additive statistics and 10 otherwise, and the bits of its value. |
| `Payload.EncodableExactly` | spectator/publisher.h:206-216 | The tokens are encodable if and only if the table has fewer than 2^19 strings and each tag count is encodable. |
| `Payload.SmallTablesAreRead` | spectator/publisher.h:186-298 | With distinct keys, fewer than 2^18 strings always suffice. |
| `Payload.EveryStringIsUsed` | spectator/publisher.h:186-205 | The table holds no string that no record refers to. |
| `Payload.Publisher.BuildStrTable` | spectator/publisher.h:186-218 | Collects exactly the strings of the batch, numbers them in iteration order and writes them in that order. |
| `Payload.Publisher.GetCommonIds` | spectator/publisher.h:272-286 | The index pairs of the common tags, in order. |
| `Payload.Publisher.AppendMeasurement` | spectator/publisher.h:251-270 | Appends the record of one measurement, whose tokens `RecordLayout` gives. |
| `Payload.RecordLayout` | spectator/publisher.h:251-270 | The tokens of a record: the number of tags, for each tag the index of its key and then of its value, with the name tag last, the operation and the bits. |
| `Payload.RecordSays` | spectator/publisher.h:226-270 | A record has the common tags, then the measurement's own, then name -> its name; the operation is decided by the value of its first "statistic" tag. |
| `Payload.RecordsSay` | spectator/publisher.h:288-298 | The records are those of the measurements, in order. |
| `Payload.Publisher.MeasurementsToJson` | spectator/publisher.h:288-298 | The payload is the table and one record per measurement. |
| `Payload.Publisher.PayloadOf` | spectator/publisher.h:288-298 | From the batch to the bytes: rejected if not readable, and otherwise read back as the records that say what each measurement is. |
| `PayloadTags.AtIsLookup` | spectator/tags.h:157-166 | The search by text in the payload's tags is the lookup in the sorted array of interned tags. |
| `PayloadTags.OpByReference` | spectator/publisher.h:226-235 | The operation is the sum exactly when the reference under the statistic key is one of the additive ones. |
| `StringPool.StrcmpZero` | spectator/string_intern.h:29 | Comparison by content sees exactly the text before the first NUL. |
| `StringPool.CanonicalOrder` | spectator/string_intern.h:24-29 | On interned strings pointer equality is equality and the content order is antisymmetric, total and agrees with it. |
| `StringPool.LessTransitive` | spectator/string_intern.h:29 | The content order is transitive. |
| `StringPool.Pool.Intern` | spectator/string_pool.cc:9-43 | The result is the table's reference for the sanitised text, added only if missing; hits, misses, size and allocated bytes stay right. |
| `StringPool.Pool.CopySanitized` | spectator/string_pool.cc:19-25 | The loop fills the copy with the sanitised bytes. |
| `StringPool.SanitizeIs` | spectator/string_pool.cc:19-25 | Digits, letters and - . ^ _ ~ are kept; every other byte becomes an underscore. |
| `StringPool.PointersAreTexts` | spectator/string_pool.cc:9-43 | Over every history of calls two results are the same pointer if and only if the sanitised texts are equal. |
| `StringPool.PoolIsCanonical` | spectator/string_pool.cc:9-43 | All references handed out are NUL-free with one address per text. |
| `Tags.TagSet.constructor` | spectator/tags.h:39 | An empty set is inline. |
| `Tags.TagSet.Copy` | spectator/tags.h:55-68 | A copy has the same tags, in its own storage of the right kind. |
| `Tags.TagSet.Move` | spectator/tags.h:40-53 | A move takes over the heap block of a large set and its capacity, and copies a small one. |
| `Tags.TagSet.Of` | spectator/tags.h:96-102 | A list of pairs of texts is interned and becomes the map in which later pairs win, sorted by key. |
| `Tags.TagSet.Add` | spectator/tags.h:106-108 | Interns both texts and inserts the two references; the pool only grows and the set stays valid for it. |
| `Tags.PoolGrows` | spectator/string_pool.cc:28-43 | A tag set stays valid when more strings are interned. |
| `Tags.TagSet.Reallocate` | spectator/tags.h:215-232 | Capacity grows by four and the tags are kept, also while the block is on the heap and the size is still 8. |
| `Tags.TagSet.CopyBackward` | spectator/tags.h:202-204 | The overlapping shift moves every element one to the right. |
| `Tags.TagSet.Insert` | spectator/tags.h:183-213 | The array stays strictly sorted with the right storage, and the map is updated at the key. |
| `Tags.TagSet.AddAll` | spectator/tags.h:124-132 | The map becomes the merge in which the source wins; the source, which may be the receiver, is unchanged by its own tags. |
| `Tags.TagSet.At` | spectator/tags.h:157-166 | Lookup in the map, the null reference if the key is absent. |
| `Tags.TagSet.Has` | spectator/tags.h:150-155 | Membership in the map. |
| `Tags.TagSet.Equals` | spectator/tags.h:134-148 | Comparing sizes and bytes is equality of the maps. |
| `Tags.TagSet.Hash` | spectator/tags.h:112-122 | The loop computes the wrapped sum of the entries' hashes. |
| `Tags.HashIsSum` | spectator/tags.h:112-122 | The hash of a set is the sum of what its tags hash to one by one, modulo 2^64. |
| `Tags.HashOfOne` | spectator/tags.h:112-122 | One tag hashes to its key's hash shifted by one, exclusive-or its value's. |
| `Tags.XorBits` | spectator/tags.h:112-122 | Exclusive or, digit by digit. |
| `Tags.LookupIsMap` | spectator/tags.h:150-166 | lower_bound followed by a pointer comparison is lookup in the map. |
| `Tags.InsertedIsUpdate` | spectator/tags.h:183-213 | Insertion keeps the strict order and is an update of the map. |
| `Tags.SortedUnique` | spectator/tags.h:134-148 | A map has exactly one sorted array. |
| `Tags.InsertionOrder` | spectator/tags.h:124-132 | Two ways of adding tags leave the same array if and only if they make the same map. |
| `Tags.MemcmpIsMapEquality` | spectator/tags.h:134-148 | Byte equality of the arrays is equality of the maps. |
| `Tags.EqualMapsHashAlike` | spectator/tags.h:112-122 | Equal maps have equal hashes, whatever the insertion order. |
| `Ids.Id.Equals` | spectator/id.h:22 | Equality is equality of names and of tag maps. |
| `Ids.Id.Hash` | spectator/id.h:72-80 | Computed on first use from name and tags, and kept. |
| `Ids.IdHashBits` | spectator/id.h:72-80 | The hash code is the tags' hash exclusive-or the name's, digit by digit. |
| `Ids.Id.WithTag` | spectator/id.h:28-34 | A new identifier with one more tag; the old one is unchanged. |
| `Ids.Id.WithTwoTags` | spectator/id.h:36-43 | The same with two tags, the second winning. |
| `Ids.Id.WithTags` | spectator/id.h:45-50 | The same with a whole set, which wins. |
| `Ids.Id.WithStat` | spectator/id.h:52 | Sets the statistic. |
| `Ids.Id.WithDefaultStat` | spectator/id.h:54-61 | Sets the statistic only if there is none. |
| `Ids.EqualIdsHashAlike` | spectator/id.h:72-80 | Equal identifiers have equal hash codes. |
| `Ids.EqualIdsReadAlike` | spectator/id.h:22 | Identifiers are equal if and only if names and tags have the same texts. |
| `AtomicNumber.AddStepInvariant` | spectator/atomicnumber.h:10-17 | Each load, exchange or failure keeps the books: cell + taken = initial + finished deltas + drift. |
| `AtomicNumber.SumExactlyUpToDrift` | spectator/atomicnumber.h:10-17 | In every interleaving with measurements the total misses the sum of the deltas by exactly the drift, and by nothing if no reset falls between a successful attempt's first load and its exchange. |
| `AtomicNumber.QuiescentSum` | spectator/atomicnumber.h:10-17 | Without resets the quiescent value is the initial one plus all deltas. |
| `AtomicNumber.ResetLosesAnUpdate` | spectator/atomicnumber.h:15-16 | A concrete run in which a reset between the two loads loses an update. |
| `AtomicNumber.ResetInventsAnUpdate` | spectator/atomicnumber.h:15-16 | A concrete run in which a reset between the second load and the exchange invents one. |
| `AtomicNumber.MaxRunInvariant` | spectator/max_gauge.cc:13-41 | In every interleaving of updates and measurements the cell is the maximum of the updates since the last exchange, and each exchange took the maximum of its own interval. |
| `AtomicNumber.ReportsCoverUpdates` | spectator/atomicnumber.h:20-28 | Every update is covered by some report, and every report is the sentinel or an update. |
| `Meters.Meter.Add` | spectator/counter.cc:25-34 | Refreshes the counter and adds what is not negative. |
| `Meters.Meter.Record` | spectator/timer.cc:35-46 | Refreshes the timer or summary and updates its four fields for an amount that is not negative. |
| `Meters.Meter.Measure` | spectator/timer.cc:10-33 | Emits the specified values and leaves the reset meter. |
| `Meters.RecordedIsCounted` | spectator/counter.cc:25-34 | The held sums grow by exactly the contribution of the call. |
| `Meters.MeasuredIsMoved` | spectator/dist_summary.cc:13-33 | What the emitted values are worth is what was held, and nothing stays behind. |
| `Meters.ReportedMaximum` | spectator/timer.cc:10-46 | The maximum that a measurement reports is the greatest amount recorded since the measurement before: not below any, and one of them, or 0. |
| `MeterSteps.EveryFieldBalances` | spectator/timer.cc:10-46 | With the updates of Record, down to the loads and exchanges of add_double, and the exchanges of Measure interleaved in any way: reported + taken + held is what has been added plus the drift, field by field. Counts and a timer's total have no drift; the other sums have none while every success falls in the epoch of its first load. |
| `MeterSteps.QuiescentBooks` | spectator/dist_summary.cc:13-46 | Once the calls are done, reported + held is what the amounts that are not negative are worth, plus the drift. |
| `MeterSteps.MeasuredWholeExactly` | spectator/dist_summary.cc:13-33 | One more undisturbed measurement leaves no sum unreported if and only if the meter is not stuck: no count, but something in another sum. |
| `MeterSteps.WholeReportsAll` | spectator/dist_summary.cc:13-46 | If no step of a measurement falls inside a call, then after all calls one more measurement has reported all that they are worth, without drift. |
| `MeterSteps.StuckStays` | spectator/timer.cc:12-16 | A meter without a count keeps whatever else it holds, however often it is measured. |
| `MeterSteps.CutShortIsStuck` | spectator/timer.cc:35-46 | A measurement between the first two updates of a call reports the count alone and leaves the amount behind. |
| `MeterSteps.SummaryLosesAnAmount` | spectator/dist_summary.cc:42 | A concrete run in which a reset between the two loads loses an amount of a summary's total. |
| `Registry.MeterMap.Insert` | spectator/registry.h:69-75 | Inserts only if there is none and returns the meter that is there. |
| `Registry.MeterMap.Measure` | spectator/registry.h:83-96 | In any iteration order each unexpired meter is reset and its values emitted once; expired ones are left alone. |
| `Registry.MeterMap.RemoveExpired` | spectator/registry.h:98-123 | Exactly the expired meters are erased, and the counts returned are right. |
| `Expiry.LookupIsInsert` | spectator/registry.h:69-75 | A lookup in the run model changes the map as insert does. |
| `Expiry.RecordIsRecord` | spectator/counter.cc:25-34 | Recording through the current handle changes the map as recording in its meter does. |
| `Expiry.UpdateIsInsertAndRecord` | spectator/registry.h:69-75 | A lookup and a record in one step insert and then record. |
| `Expiry.MeasureIsMeasure` | spectator/registry.h:83-96 | A measurement in the run model changes the map as measure does. |
| `Expiry.RemoveIsRemove` | spectator/registry.h:98-123 | A removal in the run model changes the map as remove_expired does. |
| `Expiry.BooksBalance` | spectator/registry.h:69-123 | In every run, for every id: recorded = reported + held + lost. |
| `Expiry.ExpiryLosesNothing` | spectator/registry.h:69-123 | If measuring and removing happen within the ttl of the last measurement and handles are used while current, recorded = reported + held, across removals and re-creations. |
| `Expiry.LargerGapLoses` | spectator/registry.h:83-123 | With any gap above the ttl some run loses what was recorded. |
| `Expiry.StaleHandleLoses` | spectator/registry.h:98-123 | What is recorded through a handle that outlived its meter is lost. |
| `PercentileCache.StepSame` | server/expiring_cache.h:28-70 | Every step keeps cached meters linked to the registered ones, and does to the registry what it does without a cache. |
| `PercentileCache.CacheIsInvisible` | server/expiring_cache.h:28-70 | If the ttl is at least 120 seconds plus the largest gap between expiry runs, every run leaves the same registry as the run that makes a new percentile meter per sample. |
| `PercentileCache.SmallerTtlShows` | server/expiring_cache.h:46-70 | For every smaller ttl there is a run in which the cache shows. |
| `PercentileCache.NegativeAmountsShow` | spectator/percentile_distribution_summary.h:33-45 | For every ttl and every gap there is a run with negative amounts in which the cache shows. |
| `ExpiringCache.Cache.GetOrCreate` | server/expiring_cache.h:28-44 | A hit refreshes the entry and returns it, a miss makes the percentile meter and looks up its timer. |
| `ExpiringCache.Cache.Expire` | server/expiring_cache.h:46-70 | The loop erases exactly the entries older than 120 seconds and counts them. |
| `ExpiringCache.ExpireIsKept` | server/expiring_cache.h:46-70 | The entries left by expire are those that the run model keeps. |
| `ExpiringCache.SampleIsSample` | spectator/percentile_timer.h:16-36 | A sample through a new percentile meter in the run model changes the registry's maps as a percentile line does. |
| `ExpiringCache.Cache.Sample` | server/spectatord.cc:695-700 | While every cached meter is the registered one, a percentile line updates the registered meter and the bucket's counter, and that stays so. |
| `ExpiringCache.RemovalKeepsRegistered` | spectator/registry.h:98-123 | Removal leaves the cached meters registered as long as no entry is older than the ttl. |
| `ExpiringCache.Percentile.constructor` | spectator/percentile_timer.h:16-19 | Holds the registered meter of its id, which is made if missing. |
| `ExpiringCache.Percentile.Record` | spectator/percentile_timer.h:29-36 | Records in the held meter and increments the counter of the clamped amount's bucket; a summary ignores negative amounts. |
| `BucketCounters.BucketsAreCounted` | spectator/percentile_timer.h:21-36 | After any samples of one id (not negative for a summary) the counter with its name and its tags plus statistic -> percentile and percentile -> bucket i holds the number of clamped amounts in bucket i, for every i. A timer's amounts are clamped to 1 ns and 24 h. |
| `BucketCounters.OthersUntouched` | spectator/percentile_timer.h:21-36 | No other counter is changed. |
| `BucketCounters.CachedCounters` | server/expiring_cache.h:28-44 | With the cache in between the counters are the same. |
| `BucketCounters.CountsAreRead` | spectator/percentile_distribution_summary.h:25-45 | The counts read from the counters are the tally of the clamped amounts. |
| `BucketCounters.CountersAreAccurate` | spectator/percentile_buckets.cc:10-89 | A percentile computed from those counters differs from the clamped amount of that rank by at most its bucket's width plus 3. |
| `Monotonic.MonotonicCounterUint.Set` | spectator/monotonic_counter_uint.cc:16-20 | Stores the value and refreshes the meter. |
| `Monotonic.MonotonicCounterUint.Delta` | spectator/monotonic_counter_uint.cc:22-37 | The difference modulo 2^64, with every intermediate result inside 64 bits; none before the first measurement. |
| `Monotonic.MonotonicCounterUint.Measure` | spectator/monotonic_counter_uint.cc:39-61 | Reports the delta, zero above kOverflow and nothing for zero, and remembers the value, which others may have set since. |
| `Monotonic.DeltasTelescope` | spectator/monotonic_counter_uint.cc:22-61 | Over any run, with values set at any point of a measurement, the deltas add up to last minus first remembered value minus the drift between the two loads, modulo 2^64. |
| `Monotonic.SetBetweenLoadsIsLost` | spectator/monotonic_counter_uint.cc:39-43 | A concrete run in which growth that is set between the two loads is in no delta. |
| `Monotonic.UndisturbedHasNoDrift` | spectator/monotonic_counter_uint.cc:39-43 | If nothing is set between the loads there is no drift. |
| `Monotonic.GrowthReportedExactly` | spectator/monotonic_counter_uint.cc:22-61 | Growth seen through 64 bits is reported exactly if and only if it is at most kOverflow. |
| `Monotonic.ReportIs` | spectator/monotonic_counter_uint.cc:39-61 | A delta above 9223372000000000000 is reported as zero, one of zero not at all, any other as it is. |
| `Sampled.MonotonicSampled.Set` | spectator/monotonic_sampled.cc:13-31 | Refreshes the meter, ignores older timestamps and moves the previous point once per interval. |
| `Sampled.MonotonicSampled.SampledRate` | spectator/monotonic_sampled.cc:57-62 | The quotient of value and time differences, with NaN and the infinities. |
| `Sampled.MonotonicSampled.Measure` | spectator/monotonic_sampled.cc:33-55 | Reports a positive rate and, unless the rate is NaN, remembers the point that others have left by then. |
| `Sampled.RateIsPerSecond` | spectator/monotonic_sampled.cc:57-62 | Rate times nanoseconds is 10^9 times the growth. |
| `Sampled.ReportedExactly` | spectator/monotonic_sampled.cc:33-55 | Between finite values the rate is reported if and only if the value has grown. |
| `Sampled.InfiniteInRuns` | spectator/monotonic_sampled.cc:18-30 | At every point of every run the rate is infinite if and only if there is a previous point, no point accepted since has a later timestamp, and the value differs. |
| `Sampled.SampledTelescopes` | spectator/monotonic_sampled.cc:13-62 | For every run and any timestamps: last remembered minus first value is the sum of rate times elapsed time, plus the jumps at infinite rates, plus what was set during measurements; the rates alone are right if and only if those two cancel. |
| `Sampled.ReportedIsGrown` | spectator/monotonic_sampled.cc:33-55 | For values that do not decrease the reported rates account for all growth if and only if no rate was infinite and nothing was set during a measurement that it skipped. |
| `Sampled.StrictTimestamps` | spectator/monotonic_sampled.cc:18-30 | Strictly increasing timestamps make every rate finite. |
| `Sampled.UnbrokenSkipsNothing` | spectator/monotonic_sampled.cc:35-45 | Measurements that nothing interrupts skip nothing. |
| `Sampled.RepeatedTimestamp` | spectator/monotonic_sampled.cc:18-30 | Two points with one timestamp have an infinite rate before any measurement, and their growth is in no rate. |
| `Sampled.RepeatedAfterMeasurement` | spectator/monotonic_sampled.cc:18-30 | So does a repeated timestamp after a measurement. |
| `Protocol.ParseTags` | server/spectatord.cc:234-262 | The pointer loop never reads past the NUL and computes the tags that the position loop on the text gives, for every buffer. |
| `Protocol.MakeTag` | server/spectatord.cc:21-44 | Cuts key and value out of the buffer, with "1" for a missing value, and refuses empty ones. |
| `Protocol.StatsdTagsRoundTrip` | server/spectatord.cc:234-262 | On rendered tags the loop adds exactly those tags, in order, with "1" for a missing value. |
| `Protocol.NothingEmptyAdded` | server/spectatord.cc:21-44 | Whatever the text, no empty key and no empty value is added. |
| `Protocol.EmptyValueRefused` | server/spectatord.cc:21-44 | A colon with nothing behind it is an error. |
| `Protocol.TrailingCommaRefused` | server/spectatord.cc:234-262 | So is a comma at the end. |
| `LineProtocol.GetMeasurement` | server/spectatord.cc:270-305 | The position loop finds name, tags and the start of the number, or the error. |
| `LineProtocol.NumberStart` | server/spectatord.cc:283-305 | The number starts behind the end of the text, by one byte, if and only if the loop is left at a separator that is the last byte. |
| `LineProtocol.NumberBehindTheEnd` | server/spectatord.cc:283-305 | For example on a name and a comma. |
| `LineProtocol.MissingNameExactly` | server/spectatord.cc:270-282 | The name is missing if and only if there is no separator, or the first byte is one. |
| `LineProtocol.MissingValueRendered` | server/spectatord.cc:283-305 | A rendered line with tags that ends without a colon lacks a value. |
| `LineProtocol.LineRoundTrip` | server/spectatord.cc:270-305 | Name and tags of a rendered line are recovered, and the number starts right behind its colon. |
| `LineProtocol.ParseId` | admin/admin_server.cc:277-315 | The loop of parse_id finds name and tags. |
| `LineProtocol.ParsersAgree` | admin/admin_server.cc:277-315 | For every line whose number follows a colon, parse_id on the text before that colon gives what get_measurement found. |
| `LineProtocol.IdRoundTrip` | admin/admin_server.cc:277-315 | parse_id recovers name and tags of every rendered id whose name and values have no comma and whose keys have no equals sign. |
| `LineBuffer.ParseLines` | server/spectatord.cc:47-97 | The parser, as a function of a line's text, gets the lines of the buffer in order, errors are joined and counted, and only newlines are overwritten. |
| `LineBuffer.LinesKeepAll` | server/spectatord.cc:53-90 | The lines together are all the bytes other than newlines, in order. |
| `LineBuffer.LinesAreLines` | server/spectatord.cc:53-90 | No line holds a newline, and only the first can be empty, when the text begins with a newline. |
| `LineBuffer.LinesRoundTrip` | server/spectatord.cc:53-90 | Non-empty lines separated by any number of newlines come out as they were put in. |
| `LineBuffer.EveryLineCounted` | server/spectatord.cc:60-80 | Each line is counted once, as parsed or as failed. |
| `LineBuffer.CountersAre` | server/spectatord.cc:60-80 | With status metrics, failed grows by the number of lines whose parser returned an error and parsed by the others; without them neither moves. |
| `LineBuffer.MessageIs` | server/spectatord.cc:60-80 | The result is all the messages in order, with newlines between them, if none is empty. |

## Left out

- zlib streaming and gzip: the payload is a byte sequence.
- HTTP client and server, retries, certificates, UDP and local sockets, systemd, logging, file watching, /proc parsing.
- The JSON body of a response: its error count, a missing field or a parse failure are inputs.
- The other admin handlers, and the numbers themselves in protocol lines (strtod and its relatives): only where the number starts.
- Malformed protocol lines beyond the errors of the loops modelled, the exact error texts, and the rest of a StatsD line.
- IEEE rounding and overflow of doubles, and the 64-bit sum of a timer overflowing.
- Memory orderings weaker than sequential interleaving, and the point between a lookup and a use that is not one step (it is modelled as a handle in `Expiry`).
- Tags move assignment (spectator/tags.h:72-86): for a large source it takes over the pointer but not the capacity, so it does not keep the storage invariant; nothing is proved about sets that were assigned to. Freeing memory and destructors.
- Gauges, age gauges, the other monotonic counter and the maximum gauge inside the registry map; MonotonicSampled is modelled alone, since spectator/registry.h:192-244 neither measures nor expires that map.
- Hash tables: finite maps with any iteration order. Pointer hashing is an arbitrary function, malloc an arbitrary unused address.
- Meters.Meter.Measure: one step; `MeterSteps` takes it and the recording calls apart, for the sums, and `AtomicNumber` for the maximum.
- Expiry.ExpiryLosesNothing: recording and measuring one meter are whole steps; what happens inside them is in `MeterSteps` and `AtomicNumber`.
- LineBuffer.ParseLines: the parser sees a line's own text only; on an empty first line, and on a line that `LineProtocol.NumberStart` describes, the real one reads bytes behind the line.
- ExpiringCache.Cache.Sample: the amount is in nanoseconds already; the conversion of a line's seconds is not modelled.
- LineProtocol.NumberStart: what the C library reads where the number starts behind the text.
- Sender.MakeBatches: the batch size is positive; with 0 the loop does not end, as the source's own comment says.
- Responses.Publisher.AfterWait: exact for fewer than 2^32 measurements, because the sums are 32-bit; modulo 2^32 otherwise.
