# Map-IP writer: a verified model

This project models the translation store of `cmd-map-ip-k8s`, the component that keeps
the set of active internal/external IP address translations and persists it as a flat
`From: To` table. It covers the package `internal/mapipwriter`:

- `Translations` (translation.dfy): the directional pair `Translation(from, to)`, its
  `Reverse`, the watch-event kinds and `Event` (a translation tagged with a kind).
- `TranslationStore` (store.dfy): the store as values. `Apply` is one event, `ApplyAll`
  is the left fold over events in arrival order, and `IsProjection` is the relation
  between a set and the flat table written for it. `LastKindFor`/`PresentAfter` give an
  independent definition of membership after a sequence of events.
- `Writer` (writer.dfy): the `MapIPWriter` object. It has a lazily created set
  (`isNil`, `internalToExternal`), the serial executor's queue of tasks (`pending`),
  and the table last written to the output file (`written`). `Receive` is one turn of
  the receive loop in `Start`: it schedules the event's mutation. `RunNext` is the
  executor running its head task. Running a mutation changes the set and then schedules
  a write behind every task already queued; running a write builds the table with
  `Project` (a loop over the set in unspecified order) and writes it. `Valid()` holds
  under every interleaving of `Receive` and `RunNext`. It says that the set is the fold
  of the mutations run so far, and that the queued events follow them in arrival order.
  It also says that, once an event's mutation has run, the file holds a table of the
  current set unless a write is still queued or the last write failed. `ApplyEvent` and `ProcessEvents` are the sequential
  schedule: each event's mutation runs, then its write, before the next event arrives.

The file system is a parameter: `writeOk` says whether creating the directory,
marshalling and writing the file together succeeded. `written` holds the last table
written in full. A failed write records no new table and leaves the set as it is.

Points where the code's behaviour is easy to misread:
- `Start` does not return when its channel is closed: it `continue`s
  (`internal/mapipwriter/mapipwriter.go:95-97`). The model makes no claim that
  processing ends when the input is closed.
- When several translations share a `From`, which `To` is written depends on Go's map
  iteration order (`internal/mapipwriter/mapipwriter.go:70-72`). The model chooses the
  element with `:|`, and `IsProjection` leaves the winner open.
- The write for an event is queued behind mutations that were already queued, so it
  can reflect later events too. The model keeps this queue order. It proves only that
  the file is current once nothing is queued and the last write succeeded. It does not
  prove that each write shows the state right after its own mutation.

## Model

| member | source | states |
|---|---|---|
| Translations.Reverse | internal/mapipwriter/mapipwriter.go:50-56 | the translation with From and To swapped; its properties are the three lemmas below |
| Translations.ReverseSwaps | internal/mapipwriter/mapipwriter.go:50-56 | Reverse swaps From and To |
| Translations.ReverseInvolutive | internal/mapipwriter/mapipwriter.go:51-56 | reversing twice gives back the original translation |
| Translations.ReverseFixedIffSelfLoop | internal/mapipwriter/mapipwriter.go:51-56 | a translation equals its reverse exactly when From == To, so (a, b) and (b, a) are distinct otherwise |
| TranslationStore.Apply | internal/mapipwriter/mapipwriter.go:102-110 | a Deleted event leaves its translation absent, any other kind leaves it present, and every other translation keeps its membership |
| TranslationStore.ApplyAll | internal/mapipwriter/mapipwriter.go:89-114 | the left fold of Apply over events in arrival order; its meaning is stated by ApplyAllMembership, ApplyAllAppend and ApplyAllSnoc |
| TranslationStore.UpsertPresentIsNoOp | internal/mapipwriter/mapipwriter.go:107-108 | re-inserting a present translation leaves the set unchanged |
| TranslationStore.DeleteAbsentIsNoOp | internal/mapipwriter/mapipwriter.go:103-105 | deleting an absent translation leaves the set unchanged |
| TranslationStore.DeleteKeepsReverse | internal/mapipwriter/mapipwriter.go:103-105 | deleting (a, b) with a != b leaves the membership of (b, a) unchanged |
| TranslationStore.ApplyIdempotent | internal/mapipwriter/mapipwriter.go:102-110 | applying the same event twice equals applying it once |
| TranslationStore.AddThenDeleteRestores | internal/mapipwriter/mapipwriter.go:102-110 | an upsert then a deletion of a previously absent translation restores the prior set, in particular the empty set |
| TranslationStore.ApplyAllAppend | internal/mapipwriter/mapipwriter.go:89-114 | folding a concatenation of event sequences is folding one after the other |
| TranslationStore.ApplyAllSnoc | internal/mapipwriter/mapipwriter.go:89-114 | the fold over one more event is the previous fold with that event applied last |
| TranslationStore.ApplyAllMembership | internal/mapipwriter/mapipwriter.go:98-110 | after a sequence of events a translation is present exactly when the last event about it is an upsert, or no event is about it and it was present before |
| TranslationStore.ProjectionInsert | internal/mapipwriter/mapipwriter.go:70-72 | setting t.from to t.to in a table of s gives a table of s + {t} |
| TranslationStore.ProjectionOfEmpty | internal/mapipwriter/mapipwriter.go:68-72 | the only table of the empty set is the empty table |
| TranslationStore.ProjectionCoversDistinct | internal/mapipwriter/mapipwriter.go:70-72 | when no two translations share a From, every member (f, t) appears in the table as f: t |
| TranslationStore.ProjectionUnique | internal/mapipwriter/mapipwriter.go:68-72 | when no two translations share a From, the table is determined by the set |
| TranslationStore.FromsCardinality | internal/mapipwriter/mapipwriter.go:70-72 | there are at most as many distinct Froms as translations, and exactly as many iff no two share a From |
| TranslationStore.ProjectionSize | internal/mapipwriter/mapipwriter.go:68-72 | the table has at most one entry per translation, and exactly one per translation iff the Froms are distinct |
| Writer.MutationsAppend | internal/mapipwriter/mapipwriter.go:98-113 | the queued mutations of a concatenated queue are those of each part in order |
| Writer.MapIPWriter.constructor | internal/mapipwriter/mapipwriter.go:58-63 | a new writer has a nil set, treated as empty, an empty queue and no file written |
| Writer.MapIPWriter.Project | internal/mapipwriter/mapipwriter.go:68-72 | whatever the iteration order, the table built has exactly the Froms of the set as keys, each mapped to a To it is paired with |
| Writer.MapIPWriter.WriteToFile | internal/mapipwriter/mapipwriter.go:65-86 | a successful write records a table of the current set as the file's contents; a failed write records no new table; the failure flag says whether it failed |
| Writer.MapIPWriter.ApplyToSet | internal/mapipwriter/mapipwriter.go:99-110 | creates the set if nil, then the visible set becomes Apply of the old one |
| Writer.MapIPWriter.Receive | internal/mapipwriter/mapipwriter.go:94-98 | the event's mutation is queued behind all queued tasks, keeping the invariant |
| Writer.MapIPWriter.RunNext | internal/mapipwriter/mapipwriter.go:98-114 | running a queued mutation applies it and queues a write at the tail, leaving file and failure flag alone; running a write makes the file current when it succeeds and sets the failure flag to its outcome; the invariant is kept |
| Writer.MapIPWriter.ApplyEvent | internal/mapipwriter/mapipwriter.go:98-114 | on an idle writer one event applies Apply to the set and, when the write succeeds, leaves a table of the new set in the file |
| Writer.MapIPWriter.ProcessEvents | internal/mapipwriter/mapipwriter.go:89-114 | events taken in arrival order leave the set equal to the left fold of Apply over them; the file is a table of that set when the last write succeeded and unchanged when every write failed; the failure flag follows the last write, and an empty batch changes nothing |
| Writer.Quiescent | internal/mapipwriter/mapipwriter.go:89-114 | under any interleaving, with nothing queued, the set is the fold of all received events from empty and the file is a table of it unless the last write failed |
| Writer.AddDeleteScenario | internal/mapipwriter/mapipwriter.go:98-114 | adding a translation to a new writer and then deleting it leaves an empty table in the file |
| Writer.WriterScenario | internal/mapipwriter/mapipwriter_test.go:53-95 | after the two additions of the test the file is exactly {127.0.0.1: 148.142.120.1, 1.1.1.1: 1.1.1.1}; after the deletion it is exactly {127.0.0.1: 148.142.120.1} |

## Left out

- `Translation.String` and all logging: formatting and side effects only.
- YAML marshalling, `os.MkdirAll` and `os.WriteFile`: the file is the table value in
  `written`, and the outcome of these calls is the `writeOk` parameter. The marshalling
  error branch and the write error branch both read as `writeOk == false`.
- A file truncated by a late write failure: `os.WriteFile` truncates the file when it
  opens it, so a write or close error after the open leaves it empty or half-written.
  The model does not represent such a file; `written` holds the last table written in
  full, and a failed write records no new table.
- `OutputPath` is kept as a constant and is used only by the file system.
- The `select` on `ctx.Done()` and the closed-channel branch of `Start`: cancellation
  and channel closure are not modelled. Receiving an event is `Receive`; a closed
  channel causes no step at all.
- Concurrency: the receive loop and the serial executor run as separate goroutines.
  In the model each `Receive` and each `RunNext` is one atomic step, and `Valid()`
  holds in any order of these steps.
- Watch event kinds: `watch.EventType` is an open string type from the Kubernetes
  library, which is not part of this model. The model lists its five named kinds. Any
  other value would be treated like every kind other than `Deleted`.
- Which `To` ends up in the file when several translations share a `From` depends on Go
  map iteration order, so it is stated only as a relation (`IsProjection`).
- `main.go` (signal handling, configuration, the Kubernetes client, listing and
  watching nodes, public-address discovery) and the derivation of translations from
  nodes or configuration records: this code is not part of the writer package.
