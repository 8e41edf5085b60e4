# A verified model of simple-metricd

simple-metricd is a single-host metrics daemon: it keeps a registry of counters, gauges and histograms, scrapes other
hosts on a schedule, accepts pushes, serves everything at `/metrics`, and saves the registry to a snapshot file. This
project models that behaviour in Dafny and proves what a user of the daemon relies on: what a federation hop and a
restart keep, when the order of scrapes matters, what a push counts, that snapshots survive crashes, and what every
interleaving of the scrape scheduler's threads keeps.

`dafny verify dfyconfig.toml` checks the whole project.

## How the model is built

Code that changes state is imperative: the registry, the metrics, the rate limiter, the rate helper, the disk, the
snapshot store, the daemon and the scheduler are classes whose methods update fields; the parsers are cursor loops and
line loops; the writers append to the text they build. Each such method is proved equal to a function on values
(`Contents` for the registry, `State` for the scheduler and the limiter, strings for text), and the theorems are about
those functions, so they hold of the methods.

| file | part of the program |
|---|---|
| `Text.dfy` | trimming, words, `find`, `getline`, string order |
| `Numbers.dfy`, `NumberText.dfy`, `NumeralText.dfy` | stream printing of doubles (six significant digits) and `std::stod`: inverse to each other on reals, and each in terms of decimal digits |
| `Metrics.dfy`, `CounterRate.dfy` | the three kinds of metric, the factory, the rate helper |
| `Registry.dfy` | the name-keyed registry |
| `Exposition.dfy`, `ServedText.dfy` | `/metrics` text (Prometheus text exposition format 0.0.4), and what its lines say about samples |
| `PrometheusText.dfy`, `SampleGrammar.dfy`, `Annotations.dfy` | its parser and merger, the grammar of a sample line, what comments do to samples |
| `Federation.dfy`, `Relay.dfy`, `FederationIdentity.dfy` | printing followed by parsing, from single lines to whole registries |
| `Confluence.dfy` | scrapes that interleave upsert by upsert |
| `Ingest.dfy`, `SimpleLines.dfy` | the push endpoint and its two modes, and what a `name type value` line stores |
| `Snapshot.dfy`, `ConfigLine.dfy`, `LineAgreement.dfy`, `FieldGrammar.dfy` | the snapshot line, its sibling the `metric` line of the configuration, where the two agree, and what they read from written fields |
| `SnapshotFile.dfy`, `SnapshotIdentity.dfy` | whole snapshot files, written and read back |
| `SnapshotStore.dfy` | the disk, `save` with its temporary file and rename, `load`, crashes |
| `Daemon.dfy` | initialisation, serving, the order of the stop, restarts |
| `RateLimiter.dfy` | the per-client fixed window |
| `Scheduler.dfy`, `SchedulerRuns.dfy`, `ScrapeScheduler.dfy` | the scheduler's steps and invariant, the laws of its runs, the object |

## What is proved

**Federation.** For a registry whose names, labels and help the format can carry, merging its rendered text into an
empty registry gives, name by name, exactly `Federated`: a counter or gauge comes back with its type, help and labels
and its value rounded to six significant digits, even when a histogram emits samples under the same name; a histogram
is replaced by three gauges. A hop returns the registry itself if and only if it holds only counters and gauges whose
text the format can carry and whose values have at most six significant digits or are not finite. That equivalence has
no precondition on names, labels or help: anything a merge produces can be carried, whatever text was merged. A second
hop loses nothing more if and only if the counts that flattened histograms leave behind have at most six digits before
their zeros; from the second hop on nothing changes at all.

**Snapshots and restarts.** The same for the snapshot file: a saved registry loads back as itself if and only if every
metric has a one-word name and labels, help without `#`, newline, outer white space or white space followed by
`labels=` or `value=`, and is a counter or gauge with a short value or an untouched histogram with the default buckets.
A restart after any operations, when the registry's text fits the line grammar, gives every metric in its reloaded
form under the same names, and a second restart finds the same registry again. For any labels and help texts without
line breaks a restart finds, name by name, what is read from the saved line, else the configured metric. A save that fails or is cut off anywhere leaves the old file; a load after any number of such saves
sees exactly the last one that completed.

**Scheduler.** Every state reachable by any interleaving satisfies the flag invariant; a queued target is overtaken by
nobody; slow scrapes hold up the queue if and only if no other worker is left; pushes, completions and counters balance per target and in total; a released target is
pushed by the first pass at or after its interval and by none before; the first pass pushes every target; a stop drains
in a bounded number of steps.

**Push and scraped text.** Exact counts in both ingest modes and the equivalence of the two paths; the metric a pushed
`name type value` line leaves; the metric a sample leaves, from the last `# TYPE` and `# HELP` comments before it, a gauge
when the type is missing or unknown.

**Limiter, rates, histograms.** The sharp bound `2 * limit - 1` of the fixed window over any 60 seconds, and no bound at
limit 0; conservation of counter growth, and the rate each observation returns; histogram buckets as statistics of the
samples, up to the digits served.

**Numbers.** The printed value is the nearest of six significant digits, ties to even; `PrintDecimal` and
`PrintScientific` give the characters, `ParseNumeral` the meaning of a numeral.

## Where the code and its promises part

* **A target can be lost across a stop and a start.** `stop` clears the queue without resetting `in_flight`. If the
  dispatcher's last pass runs after every worker has ended, the targets it pushed stay in flight for good and no later
  `start` scrapes them. `DroppedIff` says exactly when, `StrandingHappens` gives the interleaving, `StrandedForever`
  and `RestartServes` what follows.
* **The counters outlive a restart.** `scheduler.hpp:39-42` describes them as counts since start; the code never resets
  them. Each is a count since start if and only if it was zero at the start (`CountersSinceStartIff`);
  `CountersOutliveRestart` is a run whose second start finds it nonzero.
* **Histograms do not survive a snapshot.** They are saved by their count alone and come back empty with the default
  buckets, even when the configuration gives other buckets, because the load replaces the configured metric
  (`ConfiguredBucketsAreLost`; `SnapshotIdentityIff` has the exact condition).
* **The stop saves before the scraper drains,** so what a late scrape writes, a new name or a new value, is not in the
  snapshot. `LateScrapesAreLost` says when the names are kept all the same, `LateScrapesKeptIff` when the registry is,
  and `LateValueIsLost` shows a value that is not.
* **Labels with white space or `#` never survive a snapshot** (`SpacedLabelsAreLost`, and per line `LineIdentityIff`),
  although the exposition side accepts them. More can be lost than the labels: `TwoWordLabels` says what a label set of
  two words reloads as. A gauge of value 7 labelled `range="1 2"` comes back with value 2 (`SpacedLabelChangesValue`),
  and one labelled `a="b c"` does not come back at all (`SpacedLabelDropsMetric`).
* **A slow scrape can block the others** when it has the only worker that has not ended, for instance in a pool of one
  (`SlowScrapesBlockIff`).
* **The fixed window admits up to `2 * limit - 1` calls** in some 60-second intervals (`SlidingBoundTight`). It keeps
  its limit over every such interval if and only if the limit is 1 (`LimitKeptIff`); 0 switches it off
  (`DisabledAdmitsAll`).
* **A histogram's count can lose digits at the second hop.** Histograms print counts in full, gauges print six digits:
  `SecondHopIff` has the condition, `SecondHopLoses` an input.
* **The two line parsers disagree on `buckets=`.** `SnapshotAcceptsIff` says, in terms of the configuration parser's
  scan, which lines the snapshot parser accepts; `ParsersAgreeIff` and `RejectedLineIff` say where the two then differ,
  on lines the configuration parser accepts and rejects; `AcceptedApart` and `RejectedApart` are two lines on which
  they do.

## Model

| member | source | states |
|---|---|---|
| Relay.FederationRoundTrip | src/simple-metricd/http/exposition.cpp:14-42 | for every registry of exportable metrics the rendered text parses, and merging it into an empty registry leaves under each name exactly the relayed scalar, else the gauge of a flattened histogram, else nothing; a scalar named like a histogram's sample still wins |
| Relay.ParseRendered | src/simple-metricd/scrape/prometheus_text.cpp:70-133 | parsing the whole rendered text gives the flattened specifications of the registry in name order, comments attached to the right samples |
| Relay.HistogramFlattens | src/simple-metricd/metric/metric.cpp:160-187 | after a hop a histogram's own name is gone unless it is a suffixed name of another histogram, and `_bucket` (with `le="+Inf"` and the count), `_sum` and `_count` are gauges unless a scalar has that name |
| Relay.ScalarSurvivesIff | src/simple-metricd/scrape/prometheus_text.cpp:135-148 | a hop returns a counter or gauge unchanged exactly when its value has at most six significant digits |
| FederationIdentity.FederationIdentityIff | src/simple-metricd/scrape/prometheus_text.cpp:23-148 | for every registry, without restriction on its text, a hop is the identity if and only if all metrics are exportable counters or gauges with short values |
| FederationIdentity.SecondHopIff | src/simple-metricd/metric/metric.cpp:173-186 | relaying an exportable registry through one more daemon changes nothing if and only if every histogram that leaves a bucket or count gauge has a count of at most six digits before its zeros |
| FederationIdentity.SecondHopLoses | src/simple-metricd/http/exposition.cpp:36-39 | a registry of one histogram with 1234567 samples that the second hop changes |
| FederationIdentity.ThirdHopIsSecond | src/simple-metricd/scrape/prometheus_text.cpp:135-148 | from the second hop on every exportable registry, with any histograms, is a fixed point |
| FederationIdentity.ParsedFits | src/simple-metricd/scrape/prometheus_text.cpp:70-133 | whatever text is scraped, every sample has a name of name characters, labels without brace or newline, and trimmed one-line help |
| Federation.MetricPass | src/simple-metricd/scrape/prometheus_text.cpp:87-131 | reading one metric's rendered lines, in any parser state without its names, records its comments and appends exactly its specifications |
| Exposition.RenderPrometheusText | src/simple-metricd/http/exposition.cpp:14-42 | whatever order the hash table lists metrics in, the output is the one text of the sorted registry |
| Exposition.ListingUnique | src/simple-metricd/http/exposition.cpp:15-19 | there is only one sorted listing of a registry, so output does not depend on hash order |
| Exposition.SortGivesListing | src/simple-metricd/http/exposition.cpp:15-19 | sorting any enumeration of the registry gives that listing |
| Exposition.SortedList | src/simple-metricd/metric/snapshot.cpp:167-169 | listing and sorting the live objects gives the registry's metrics once each in name order |
| Exposition.WriteHistogram | src/simple-metricd/metric/metric.cpp:160-187 | the bucket loop and the closing lines append exactly the cumulative samples of the histogram |
| ServedText.BucketsServed | src/simple-metricd/metric/metric.cpp:160-187 | after any samples, the i-th line served has the i-th normalized bound and the number of finite samples not above it, and the closing lines have the number, the sum and the number of all finite samples |
| ServedText.ServedCountsGrow | src/simple-metricd/metric/metric.cpp:160-187 | the counts on those lines never decrease and end at the `+Inf` count |
| ServedText.WithoutMetadata | src/simple-metricd/http/exposition.cpp:14-42 | without metadata the text is the same text without its comment lines |
| Numbers.Round6Exact | src/simple-metricd/http/exposition.cpp:36-39 | printing at default precision keeps a value if and only if it is a decimal of at most six significant digits, or not finite |
| Numbers.CountShortIff | src/simple-metricd/http/exposition.cpp:36-39 | a whole number prints exactly if and only if all its digits after the sixth are zeros |
| Numbers.Round6Idempotent | src/simple-metricd/http/exposition.cpp:36-39 | what has been printed once prints the same again |
| Numbers.Round6Nearest | src/simple-metricd/http/exposition.cpp:36-39 | no number of at most six significant digits is closer to a value than the printed one |
| Numbers.TieGoesToEven | src/simple-metricd/http/exposition.cpp:36-39 | halfway between two six-digit decimals of any magnitude the even one is printed |
| NumeralText.PrintDecimal | src/simple-metricd/http/exposition.cpp:36-39 | a decimal of at most six significant digits from 0.0001 to below a million is printed as its whole part, a point and its fraction, or as its digits alone when whole, with a minus when negative |
| NumeralText.PrintScientific | src/simple-metricd/http/exposition.cpp:36-39 | outside that range it is printed with one digit before the point and a signed exponent of at least two digits |
| NumeralText.ParseNumeral | src/simple-metricd/scrape/prometheus_text.cpp:55-61 | a numeral with optional sign, point and exponent is read as what its digits say, and what follows it is ignored |
| NumberText.ParsePrintNum | src/simple-metricd/scrape/prometheus_text.cpp:55-61 | reading the printed form of any value, plain or with exponent, infinite or NaN, gives the value rounded to six digits |
| NumberText.ParsePrintNat | src/simple-metricd/metric/metric.cpp:173-186 | reading back a printed count gives the count |
| PrometheusText.ParseSampleLine | src/simple-metricd/scrape/prometheus_text.cpp:23-66 | the scanning loops find name, label set and value as the line grammar defines them, or the first error |
| SampleGrammar.SampleRead | src/simple-metricd/scrape/prometheus_text.cpp:23-66 | a name, optional labels in braces, white space and a word are read as exactly these; what follows the value is ignored, and a word that is no number is an error |
| SampleGrammar.NoValue | src/simple-metricd/scrape/prometheus_text.cpp:46-53 | a line with nothing but white space behind name or labels misses its value |
| SampleGrammar.Unclosed | src/simple-metricd/scrape/prometheus_text.cpp:37-45 | a brace that is never closed is an error |
| PrometheusText.ParsePrometheusText | src/simple-metricd/scrape/prometheus_text.cpp:70-133 | the line loop computes the pass over the lines of the text |
| PrometheusText.MergePrometheusText | src/simple-metricd/scrape/prometheus_text.cpp:135-148 | all or nothing: on a parse error the registry is untouched and nothing is counted, otherwise every data line is upserted in order and counted |
| Annotations.CommentsDecide | src/simple-metricd/scrape/prometheus_text.cpp:87-128 | in a text that parses, each data line becomes the specification of its own number, with the type word of the last TYPE comment for its name before it if that is a known type in any case and `gauge` otherwise, and the text of the last HELP comment or none |
| Annotations.MergedSample | src/simple-metricd/scrape/prometheus_text.cpp:113-148 | merging it leaves, under the name of each last sample, the counter, gauge or empty default histogram that says |
| Annotations.UnknownTypeIsGauge | src/simple-metricd/scrape/prometheus_text.cpp:113-128 | a sample whose last TYPE comment is missing or unknown is merged as a gauge with its value, labels and help |
| PrometheusText.PassBuildable | src/simple-metricd/scrape/prometheus_text.cpp:113-128 | every sample becomes a specification the registry accepts, because an unknown type falls back to gauge |
| PrometheusText.PassCounts | src/simple-metricd/scrape/prometheus_text.cpp:70-133 | a successful parse yields one specification per line that is neither blank nor a comment |
| Confluence.UpsertsByName | src/simple-metricd/metric/registry.cpp:28-39 | after any sequence of upserts each name holds the metric of the last accepted one for it |
| Confluence.SameOrderPerName | src/simple-metricd/metric/registry.cpp:28-39 | two schedules that agree on the order of each single name's upserts leave the same registry |
| Confluence.InterleavingConfluence | src/simple-metricd/scrape/scheduler.cpp:106-107 | every interleaving of the upserts of two scrapes with disjoint names equals running them one after the other, in either order |
| Confluence.WorkerOrderIrrelevant | src/simple-metricd/scrape/scheduler.cpp:149-166 | for any number of workers, if no two targets export the same name, all interleavings of the same scrapes end in the same registry |
| Confluence.OrderMattersIff | src/simple-metricd/scrape/prometheus_text.cpp:135-148 | two whole merges commute if and only if they agree on every name both of them write |
| Confluence.MergeIdempotent | src/simple-metricd/scrape/prometheus_text.cpp:135-148 | merging the same samples twice equals merging them once |
| Confluence.ScrapesCommute | src/simple-metricd/scrape/scheduler.cpp:106-107 | the confluence of two scraped bodies whose parsed names are disjoint |
| Ingest.IngestBody | src/simple-metricd/http/ingest.cpp:73-133 | the mode switch and the `getline` loop compute the outcome of the body: registry, both counts and the last error |
| Ingest.IngestAccounting | src/simple-metricd/http/ingest.cpp:73-133 | Prometheus mode: all data lines accepted or registry untouched with one rejection; line mode: accepted are the usable lines, and accepted plus rejected are the data lines |
| Ingest.LineAccounting | src/simple-metricd/http/ingest.cpp:94-131 | the same counts from any starting point of the loop |
| SimpleLines.SimpleLineStored | src/simple-metricd/http/ingest.cpp:26-69 | a line of a one-word name, a type word in any case, a printed value and anything behind it stores under the name the counter, gauge or empty default histogram of that value rounded to six digits, a counter at least 0, without help or labels; one line is accepted, none rejected, every other name is as it was |
| SimpleLines.PlainLineStored | src/simple-metricd/http/ingest.cpp:94-131 | the same for the plain line with single blanks, with no other condition than a name without `{` that does not start with `#` |
| SimpleLines.LastErrorReported | src/simple-metricd/http/ingest.cpp:94-131 | the error reported is that of the last line that could not be used |
| SimpleLines.MarkersDecide | src/simple-metricd/http/ingest.cpp:73-92 | a body with a TYPE or HELP marker or a brace anywhere is merged whole, all of it or nothing |
| Ingest.PathsEquivalent | src/simple-metricd/http/ingest.cpp:76-131 | for a body without markers whose data lines are all samples and none simple, the line path leaves the registry, counts and error of one whole merge |
| Ingest.PathsEqualIff | src/simple-metricd/http/ingest.cpp:76-131 | for a body without markers and simple lines the two paths have the same outcome, registry, counts and error, if and only if every data line parses or there is only one |
| Ingest.PathsAcceptAlikeIff | src/simple-metricd/http/ingest.cpp:76-131 | for such bodies with some lines that do not parse, both paths accept the same number if and only if all data lines parse or none does |
| Snapshot.ParseLine | src/simple-metricd/metric/snapshot.cpp:25-112 | the cursor loops terminate and compute the field grammar, with the same errors |
| ConfigLine.ParseLine | src/simple-metricd/config/config.cpp:45-158 | the configuration parser's cursor loops, with `buckets=`, compute its grammar |
| LineAgreement.ParsersAgreeIff | src/simple-metricd/config/config.cpp:45-158 | on any line the configuration parser accepts, the snapshot parser builds the same specification if and only if a value was read and no bounds were set |
| LineAgreement.SnapshotAcceptsIff | src/simple-metricd/metric/snapshot.cpp:25-112 | on every line the snapshot parser accepts if and only if name, known type and fields are there, where the fields suit it if and only if the configuration scan never meets `buckets=` outside help text and its last stretch, behind the last help text holding the key, scans and has read a value |
| LineAgreement.RejectedLineIff | src/simple-metricd/config/config.cpp:61-124 | on any line the configuration parser rejects, the snapshot parser accepts if and only if the type is known, the scan first meets `buckets=` inside a help text, and the fields behind that text suit it |
| LineAgreement.ParsersAgree | src/simple-metricd/metric/snapshot.cpp:25-112 | on every string without `buckets=` the snapshot parser accepts if and only if the configuration parser accepts and read a value token, and both build the same specification |
| LineAgreement.BucketsDisagree | src/simple-metricd/config/config.cpp:93-124 | at any valid `buckets=` field the configuration parser goes on and the snapshot parser fails |
| LineAgreement.HelpedLineBothWays | src/simple-metricd/config/config.cpp:62-124 | what each parser makes of `h gauge 1 help=a buckets=...` for every word after the key |
| LineAgreement.AcceptedApart | src/simple-metricd/metric/snapshot.cpp:49-62 | a whole line both parsers accept with different specifications |
| LineAgreement.RejectedApart | src/simple-metricd/metric/snapshot.cpp:49-62 | a whole line only the snapshot parser accepts |
| FieldGrammar.LineRead | src/simple-metricd/config/config.cpp:45-158 | a one-word name, a known type and any number of values, labels, help texts and bounds in any order that can be told apart are read as exactly that, later fields over earlier ones |
| FieldGrammar.SnapshotLineRead | src/simple-metricd/metric/snapshot.cpp:25-112 | the same line without bounds is accepted in a snapshot if and only if it has a value, and is then read the same |
| SnapshotFile.LineReloadsIff | src/simple-metricd/metric/snapshot.cpp:132-147 | a written line gives its help text back if and only if that text is safe, and then it gives everything back |
| SnapshotFile.ReloadExact | src/simple-metricd/metric/snapshot.cpp:122-154 | loading a saved safe registry over any registry replaces exactly the saved names, each by its reloaded form |
| SnapshotFile.ReloadWritten | src/simple-metricd/metric/snapshot.cpp:122-154 | loading a saved registry of one-word names, with any labels and help texts that do not break the line, leaves under each name the metric read from its line if it can be read, else what was there |
| SnapshotFile.UncutHelpIsRead | src/simple-metricd/metric/snapshot.cpp:132-147 | a help text with a comment mark but no key boundary costs the line only the rest of that text |
| SnapshotFile.ReloadedIff | src/simple-metricd/metric/snapshot.cpp:170-182 | the reloaded form equals the metric if and only if it is a scalar with a short value or a pristine default histogram |
| SnapshotFile.HistogramSavedByCount | src/simple-metricd/metric/snapshot.cpp:170-182 | after any samples a histogram's snapshot line holds the number of its finite samples and nothing else it has seen |
| SnapshotIdentity.SnapshotIdentityIff | src/simple-metricd/metric/snapshot.cpp:122-195 | for every registry, without restriction on its text, saving and loading is the identity if and only if every metric is lossless |
| SnapshotIdentity.LoadedIsCarried | src/simple-metricd/metric/snapshot.cpp:25-112 | whatever a line holds, a specification read from it has a one-word name and labels and safe help |
| SnapshotIdentity.LineIdentityIff | src/simple-metricd/metric/snapshot.cpp:25-112 | a written line gives its whole specification back if and only if its labels are one word without `#` and its help is safe |
| SnapshotIdentity.SpacedLabelsAreLost | src/simple-metricd/metric/snapshot.cpp:63-71 | labels with white space or `#` never come back from a snapshot, whatever else it holds |
| SnapshotIdentity.TwoWordLabels | src/simple-metricd/metric/snapshot.cpp:63-101 | labels of two words: the first is all that is kept, the second replaces the value if it starts like a number and makes the line unreadable otherwise |
| SnapshotIdentity.SpacedLabelChangesValue | src/simple-metricd/metric/snapshot.cpp:89-100 | a saved gauge of value 7 labelled `range="1 2"` loads with value 2 |
| SnapshotIdentity.SpacedLabelDropsMetric | src/simple-metricd/metric/snapshot.cpp:93-99 | a saved gauge labelled `a="b c"` does not load at all |
| SnapshotStore.SnapshotStore.Save | src/simple-metricd/metric/snapshot.cpp:156-195 | the disk passes through exactly the listed states, the result is true if and only if opening, writing, closing and renaming all work, and only then is the snapshot the rendering of the registry |
| SnapshotStore.SnapshotStore.Load | src/simple-metricd/metric/snapshot.cpp:122-154 | a missing path or file changes nothing; otherwise the `getline` loop applies every readable line in order |
| SnapshotStore.SnapshotStore.Stop | src/simple-metricd/metric/snapshot.cpp:208-219 | only a running store writes a final snapshot, and a second stop writes none |
| SnapshotStore.SaveIsAtomic | src/simple-metricd/metric/snapshot.cpp:160-191 | at every step of a save the snapshot is the old file or the complete new one, the new one only as the last step of a save that reports success, and no third file changes |
| SnapshotStore.CrashConsistency | src/simple-metricd/metric/snapshot.cpp:156-195 | after any sequence of saves that fail or are cut off at any step, the file is the text of the last save that completed, or was never touched |
| SnapshotStore.CrashRecovery | src/simple-metricd/metric/snapshot.cpp:122-195 | so a load brings back that whole registry and nothing of an unfinished save |
| Daemon.RestartPreservation | src/simple-metricd/core/daemon.cpp:34-60 | initialise, run any operations, save, initialise afresh: the same names, each metric in its reloaded form, and the very same registry if and only if every metric is lossless |
| Daemon.SecondRestartIsFirst | src/simple-metricd/core/daemon.cpp:34-60 | saving what a restart found and restarting again finds the same registry |
| Daemon.RestartByName | src/simple-metricd/core/daemon.cpp:34-60 | with one-word names and any labels and help texts that do not break the line, a restart has under each name what is read from its saved line, else the configured metric; the names are the configured and the readable ones |
| Daemon.ConfiguredBucketsAreLost | src/simple-metricd/core/daemon.cpp:51-59 | a histogram configured with one bucket, of any bound, has the default buckets after a restart |
| Daemon.LateScrapesKeptIff | src/simple-metricd/core/daemon.cpp:130-157 | a restart has the registry the daemon ended with if and only if every late write was already there, reloaded, and every other metric is lossless |
| Daemon.LateValueIsLost | src/simple-metricd/core/daemon.cpp:145-151 | a gauge scraped as 2 during the stop is 1 again after the restart |
| Daemon.LateScrapesAreLost | src/simple-metricd/core/daemon.cpp:130-157 | because the stop saves before the scraper drains, a restart has the names the daemon ended with if and only if the late scrapes added none |
| Daemon.RegisterAllIff | src/simple-metricd/core/daemon.cpp:34-40 | the configured metrics register if and only if each can be built and no name repeats, and then exactly those names are there with their configured metrics |
| Daemon.InitialIff | src/simple-metricd/core/daemon.cpp:19-62 | initialisation succeeds if and only if the configuration is valid, its metrics can be built under distinct names and the TLS files load; without a snapshot the registry is then exactly the configured metrics, whatever it held before |
| Daemon.AppliedAllValid | src/simple-metricd/metric/registry.cpp:28-86 | no sequence of upserts, sets and increments removes a name or breaks a metric |
| Daemon.MetricDaemon.Initialize | src/simple-metricd/core/daemon.cpp:19-62 | every failure leaves the daemon uninitialised with the registry as far as it got; a second call changes nothing |
| Daemon.MetricDaemon.Start | src/simple-metricd/core/daemon.cpp:64-128 | with nothing running before, the snapshot store runs afterwards if and only if everything before it came up and a file is configured |
| Daemon.MetricDaemon.Stop | src/simple-metricd/core/daemon.cpp:130-157 | a running store whose save commits leaves the registry as it was at the stop request on disk, any other stop leaves all but the temporary file as they were; the registry ends with the late upserts applied |
| Daemon.LifeAndRestart | src/simple-metricd/core/daemon.cpp:19-157 | on live objects and one disk: start, serve, stop, initialise a new daemon; its registry is the reloaded one |
| Registry.MetricRegistry.RegisterMetric | src/simple-metricd/metric/registry.cpp:12-26 | adds a metric under a new name only, and refuses an empty name, an unknown type or a taken name without any change |
| Registry.MetricRegistry.Upsert | src/simple-metricd/metric/registry.cpp:28-39 | replaces one name and leaves all others, or changes nothing |
| Registry.MetricRegistry.SetValue | src/simple-metricd/metric/registry.cpp:53-60 | updates one metric object in place and no other |
| Registry.MetricRegistry.Increment | src/simple-metricd/metric/registry.cpp:62-77 | only counters, only nonnegative amounts, everything else refused |
| Registry.IncrementLaw | src/simple-metricd/metric/registry.cpp:62-77 | an increment adds a finite nonnegative amount to a counter and keeps its texts, and is refused for any other amount, type or name without a change |
| Registry.MetricRegistry.List | src/simple-metricd/metric/registry.cpp:79-97 | every metric exactly once, in some order |
| Metrics.BoundsNormalized | src/simple-metricd/metric/metric.cpp:104-110 | after sorting and removing repeats the bounds are strictly increasing, with none lost and none added |
| Metrics.HistogramStatistics | src/simple-metricd/metric/metric.cpp:131-143 | after any samples each bucket holds the number of finite samples not above its bound, and count and sum are those of the finite samples |
| Metrics.HistogramCumulative | src/simple-metricd/metric/metric.cpp:160-187 | so the exposed bucket counts never decrease and never exceed the total |
| Metrics.HistogramMetric.ObserveSample | src/simple-metricd/metric/metric.cpp:131-143 | the in-place bucket loop is one observation; a sample that is not finite changes nothing |
| Metrics.CounterMetric.SetValue | src/simple-metricd/metric/metric.cpp:35-45 | a counter only ever grows, by finite nonnegative values |
| Metrics.SetLaw | src/simple-metricd/metric/metric.cpp:35-86 | a counter takes a finite value if and only if it is nonnegative and not below its own, a gauge takes every finite value, a histogram observes it, and nothing takes a value that is not finite |
| Metrics.MadeByType | src/simple-metricd/metric/metric.cpp:246-259 | the metric a specification becomes, by its type word in any case, and none for any other word |
| Metrics.TypeWordIff | src/simple-metricd/metric/metric.cpp:225-231 | a word names a type if and only if it spells it in any mix of cases |
| Rates.Conservation | src/simple-metricd/metric/metric.cpp:189-223 | over any run, rate times elapsed time sums to the movement of the baseline plus what was lost at detected decreases |
| Rates.Telescoping | src/simple-metricd/metric/metric.cpp:189-223 | over a run without decreases at increasing times that sum is last minus first |
| Rates.RateIsMeasured | src/simple-metricd/metric/metric.cpp:189-223 | every reported rate is nonnegative, was measured between two real observations, and spans no detected decrease; observations with no elapsed time keep the baseline |
| Rates.ReturnsHeld | src/simple-metricd/metric/metric.cpp:189-217 | after any run an observation returns the rate the helper then holds, and nothing for a value that is not finite |
| Rates.MonotoneRate | src/simple-metricd/metric/metric.cpp:189-217 | on a run without decreases at increasing times each observation after the first returns the growth per second since the one before |
| Rates.CounterRate.Observe | src/simple-metricd/metric/metric.cpp:189-217 | the helper's fields after each observation, and the rate it returns |
| RateLimiting.BucketMeaning | src/simple-metricd/security/rate_limiter.cpp:21-38 | the limiter's bookkeeping in terms of the client's call times alone |
| RateLimiting.AdmittedIff | src/simple-metricd/security/rate_limiter.cpp:21-38 | a call is admitted if and only if fewer than the limit of the client's calls precede it in its window |
| RateLimiting.Isolation | src/simple-metricd/security/rate_limiter.cpp:21-38 | deleting every other client's calls changes no decision |
| RateLimiting.SlidingBound | src/simple-metricd/security/rate_limiter.cpp:21-38 | no half-open 60-second interval holds more than twice the limit minus one admitted calls of a client |
| RateLimiting.SlidingBoundTight | src/simple-metricd/security/rate_limiter.cpp:21-38 | for every limit there is a run that reaches that bound |
| RateLimiting.LimitKeptIff | src/simple-metricd/security/rate_limiter.cpp:21-38 | for every limit, 0 included, every minute of every run keeps the limit if and only if the limit is 1 |
| RateLimiting.DisabledAdmitsAll | src/simple-metricd/security/rate_limiter.cpp:21-38 | with limit 0 every call of every run is admitted and nothing is recorded |
| RateLimiting.RateLimiter.Allow | src/simple-metricd/security/rate_limiter.cpp:21-38 | the map update of each branch is one step of the limiter; with limit 0 the call is admitted and the map stays as it was |
| Scheduler.StepKeepsInv | src/simple-metricd/scrape/scheduler.cpp:29-166 | every step of every thread keeps the flag invariant |
| Scheduler.InvMeaning | src/simple-metricd/scrape/scheduler.cpp:121-163 | no duplicates in the queue, no target held twice or both queued and held, `in_flight` set exactly for queued, held and dropped targets, queue plus busy workers at most the number of targets, every queued or held index in range |
| SchedulerRuns.RunKeepsInv | src/simple-metricd/scrape/scheduler.cpp:29-166 | the invariant in every state of every run from a state that has it; the targets' intervals never change |
| SchedulerRuns.ReachableStates | src/simple-metricd/scrape/scheduler.cpp:15-166 | the invariant in every state any interleaving reaches from construction, starts and stops included |
| SchedulerRuns.QueueIsFifo | src/simple-metricd/scrape/scheduler.cpp:134-163 | until a clear, what was popped followed by the queue is the old queue followed by what was pushed |
| SchedulerRuns.BoundedBypass | src/simple-metricd/scrape/scheduler.cpp:134-163 | no overtaking: a target at position k is popped after exactly k other pops, all of different targets, and k is below the number of targets |
| SchedulerRuns.SlowScrapesBlockIff | include/simple-metricd/scrape/scheduler.hpp:21-25 | the promise that a slow scrape does not block others, exactly: all that is queued can be scraped without a step of any given slow workers if and only if another worker has not ended |
| SchedulerRuns.TargetConservation | src/simple-metricd/scrape/scheduler.cpp:121-141 | for each target, pushes and completions differ by exactly the one that is in flight |
| SchedulerRuns.WorkConservation | src/simple-metricd/scrape/scheduler.cpp:89-143 | pushes are queued, held, completed or dropped; successes plus failures are completions plus workers about to release |
| SchedulerRuns.CountersSinceStartIff | include/simple-metricd/scrape/scheduler.hpp:39-42 | from a stopped scheduler each counter counts the results since the start if and only if it was zero at the start, and together they count the finished scrapes if and only if both were |
| SchedulerRuns.CountersOutliveRestart | src/simple-metricd/scrape/scheduler.cpp:29-50 | a run through construction, one scrape and a stop whose counter is one right after the second start |
| SchedulerRuns.Spacing | src/simple-metricd/scrape/scheduler.cpp:121-141 | no later pass queues a target again before one second, and before its interval, after a completion |
| SchedulerRuns.SpacingIff | src/simple-metricd/scrape/scheduler.cpp:121-142 | as long as no pass has pushed a target since its release, a pass pushes it if and only if its interval, at least one second, has gone by since the release |
| SchedulerRuns.FirstPassPushesAll | src/simple-metricd/scrape/scheduler.cpp:15-142 | the first pass after construction queues every target in order |
| SchedulerRuns.ShutdownDrains | src/simple-metricd/scrape/scheduler.cpp:52-77 | once the flag is down there is at most one more pass, the number of remaining steps is bounded, and a run that cannot go on has ended every thread and emptied the queue |
| SchedulerRuns.ShutdownProgress | src/simple-metricd/scrape/scheduler.cpp:128-166 | until the clear some thread can always step |
| SchedulerRuns.DroppedIff | src/simple-metricd/scrape/scheduler.cpp:52-77 | the final clear drops a target if and only if a pass that ran after every worker had ended pushed it |
| SchedulerRuns.StrandedForever | src/simple-metricd/scrape/scheduler.cpp:134-141 | a dropped target is never pushed or completed again, in any later run |
| SchedulerRuns.RestartServes | src/simple-metricd/scrape/scheduler.cpp:29-50 | after a restart the first pass queues a target if and only if it is due and was not dropped |
| SchedulerRuns.StrandingHappens | src/simple-metricd/scrape/scheduler.cpp:128-166 | an interleaving of one worker and one target that drops it, for every interval |
| ScrapeScheduling.ScrapeScheduler.DispatcherPass | src/simple-metricd/scrape/scheduler.cpp:131-142 | the loop over the targets marks and queues exactly the due ones that are not in flight, in order |
| ScrapeScheduling.ScrapeScheduler.WorkerScrape | src/simple-metricd/scrape/scheduler.cpp:89-119 | a scrape succeeds if and only if the status is 200 and the body parses; only then does it change the registry, by the body's samples in order; any other status or body leaves it as it was and adds one failure |
| ScrapeScheduling.ScrapeScheduler.WorkerTake | src/simple-metricd/scrape/scheduler.cpp:149-166 | after its wait a worker takes the front of the queue, and ends only when stopped with the queue empty |
| ScrapeScheduling.ScrapeScheduler.WorkerRelease | src/simple-metricd/scrape/scheduler.cpp:121-125 | the release clears one flag and sets one due time; `SpacingIff` says which passes then push the target |
| ScrapeScheduling.ScrapeScheduler.Start | src/simple-metricd/scrape/scheduler.cpp:29-50 | nothing happens without targets or when running; otherwise the threads of the computed number start |
| ScrapeScheduling.PoolSize | src/simple-metricd/scrape/scheduler.cpp:37-42 | a configured size is taken as it is; otherwise the pool is the largest size not above the targets, eight or the hardware's threads, of which at least two are assumed, and at least one |
| ScrapeScheduling.ScrapeScheduler.Interleave | src/simple-metricd/scrape/scheduler.cpp:128-166 | any schedule of the threads' critical sections on the object is a run of the machine, so the laws above hold of it |

## Left out

- Double rounding: sums, bounds and values are reals with infinities and one NaN; negative zero, the sign of NaN, overflow, and `uint64` wrap of counts are not modelled, nor is the point from which a count is no longer exact as a double.
- Numbers: `std::stod` reads decimal numerals, `inf` and `nan`; hexadecimal numerals and out-of-range exceptions are not modelled.
- Sorting: `std::sort` is modelled by insertion; names are distinct, so the result is the same.
- Characters beyond ASCII: `std::isspace` and `std::isalnum` are modelled for the C locale.
- Sockets, TLS, HTTP framing, access lists, privilege drop, logging and the command line: their outcomes are parameters (`valid`, `tlsOk`, `up`, a `Response`).
- Wake-ups: a worker may step whenever its wait condition holds; the condition variable, the 50 ms and 200 ms sleeps and scheduling by the operating system are not modelled, so nothing is claimed about real time.
- Raw pointers: `list()` and `find()` hand out pointers used outside the lock; rendering and saving are treated as atomic with respect to upserts. Upserts of concurrent scrapes do interleave one by one.
- Disk: renames are atomic and other files are untouched by others; one line of a save is one write, clipped to the space left; read errors during a load are not modelled.
- The snapshot timer: a save may happen at any time, so the interval is not part of the model.
- `setMaxPerMinute` concurrent with `allow`, and a limit that changes during a run: the run laws fix the limit.
- A second thread calling `stop` while a `stop` is joining.
- Rendering without metadata: `ServedText.WithoutMetadata` says what is missing; the round trips are stated with metadata, which is what the daemon serves.
- Ingest's own check that a line's upsert succeeded: it cannot fail there, as the lemmas `SimpleAccepted` and `PassBuildable` show.
- Scrape target lines, other configuration keys and `validateDetailed`: easy members that would add little.
- Daemon.RestartPreservation: stated for registries whose text the snapshot can carry; `Daemon.RestartByName` covers any labels and help texts without line breaks. A line break in a text splits its line in two, and white space or `#` in a name changes how its line is read; for those `SnapshotIdentity.SnapshotIdentityIff` says that the registry does not come back, not what does.
- Registry.MetricRegistry.RegisterMetric: requires bounds without NaN, because the source sorts them with `std::sort`, which demands an order that NaN breaks.
- Registry.MetricRegistry.Upsert: the same requirement on bounds.
- Metrics.BoundsNormalized: the same requirement on bounds.
- Metrics.HistogramCumulative: the same requirement on bounds.
- ScrapeScheduling.ScrapeScheduler.Start: requires that no stop is still joining, because assigning to a thread that is still joinable ends the program.
