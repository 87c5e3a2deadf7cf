# Deduplicated random users — a Dafny model

The service answers `GET /usuarios` by fetching one batch of generated users
from an upstream API, converting each upstream result entry into a flat
`Usuario` record (`uuid`, `nombre`, `apellido`, `email`, `ciudad`, `pais`)
and keeping only the first entry for each login UUID. This project models the
fetcher `usuariosGet`: its two record shapes, the three upstream stages that
can fail, and the loop that converts and deduplicates the decoded results,
with its seen-map of UUIDs.

- `wrappers.dfy` — `Option` and `Result`.
- `usuarios.dfy` (module `Usuarios`) — the records (`Usuario`, and
  `Resultado` with its nested `Login`, `Name`, `Location`), the conversion
  `ToUsuario`, the specification `Dedup` of the deduplicated list, an
  independent reference definition of first-occurrence positions
  (`IsFirst`, `FirstIndices`, `Project`), and the lemmas relating them.
- `fetcher.dfy` (module `Fetcher`) — `Deduplicate`, the loop itself over a
  `seq` of entries with a `map<string, bool>` seen-map, proved equal to
  `Dedup`; and `UsuariosGet`, which returns no list and the error of the first
  failing stage, or the deduplicated list.

The network call, the body read and the JSON decoder are library calls; their
outcomes are the input `Upstream` of `UsuariosGet`: a transport error or none,
a read error or none, and the decoded payload or a decode error. A Go `nil`
slice with an error is `Failure(e)`; a returned slice (possibly empty, never
`nil`) is `Success(list)`.

## Model

| member | source | states |
|---|---|---|
| `Usuarios.FirstIndicesExact` | main.go:63 | The first-occurrence positions below `n` are strictly increasing, and a position is among them exactly when no earlier entry has the same UUID (both directions). |
| `Usuarios.DedupDistinct` | main.go:60-76 | No two records of the returned list share a UUID. |
| `Usuarios.DedupUuids` | main.go:63-75 | The set of UUIDs in the output equals the set of UUIDs in the input: an entry is skipped only when its UUID is already kept, and no UUID is invented. |
| `Usuarios.DedupFromInput` | main.go:60-73 | Every output record is the conversion of some input entry. |
| `Usuarios.DedupLength` | main.go:60-78 | The output has exactly one record per distinct input UUID, and no more records than input entries. |
| `Usuarios.SeenIffNotFirst` | main.go:63 | The seen test on entry `n` succeeds exactly when some earlier entry carries the same UUID. |
| `Usuarios.DedupPrefixStep` | main.go:60-75 | Processing entry `n-1` appends its record exactly when it is the first entry with its UUID, and otherwise leaves the list unchanged. |
| `Usuarios.DedupPrefixIsProjection` | main.go:60-75 | After any prefix of the input, the list built so far equals the converted entries at that prefix's first-occurrence positions, in input order. |
| `Usuarios.DedupIsFirstOccurrences` | main.go:60-78 | The output equals the subsequence of converted entries at the first-occurrence positions, in input order (first-occurrence order). |
| `Usuarios.DedupCopiesFirstEntry` | main.go:64-71 | Every output record is copied field by field (`uuid` from `login.uuid`, `nombre`/`apellido` from `name.first`/`name.last`, `email`, `ciudad`/`pais` from `location.city`/`location.country`) from an input entry that is the first to carry its UUID. |
| `Usuarios.FirstOccurrenceWins` | main.go:63-74 | For the first entry carrying a UUID, a record copied field by field from it is in the output, and every output record with that UUID equals it: later entries with that UUID are ignored. |
| `Usuarios.TwoDistinctEntries` | main.go:60-76 | Two entries with different UUIDs give two records, in the input order. |
| `Usuarios.TwoDuplicateEntries` | main.go:60-76 | Two entries with the same UUID give one record, built from the first. |
| `Fetcher.Deduplicate` | main.go:60-78 | The loop with its seen-map returns `Dedup` of the entries; so the result has distinct UUIDs, the same UUID set as the input, one record per distinct UUID, every record copied field by field from the first entry with its UUID, and is empty for an empty input. The loop keeps the seen-map's keys equal to the UUIDs of the list built so far. |
| `Fetcher.MessageInjective` | main.go:46-57 | Two errors with the same text are the same error: the text identifies the failing stage (its fixed prefix) and the cause. |
| `Fetcher.UsuariosGet` | main.go:39-78 | A transport, read or decode failure returns no list and that stage's error, the earliest failing stage winning; otherwise the deduplicated list of the decoded results is returned, so an empty `results` list yields an empty list and no error. |

## Left out

- The HTTP GET, `defer resp.Body.Close()` and `io.ReadAll` (main.go:43-53): network and stream I/O. Their outcomes are inputs of `UsuariosGet`; closing the body on every path is not modelled.
- `json.Unmarshal` and the JSON field tags (main.go:14-36, 55-58): a library decoder. Decoding is taken as given, producing either the `results` list or a decode error.
- `getUsuariosHandler` (main.go:81-93): setting the `Content-Type` header, mapping errors to HTTP 500 and streaming the JSON encoding are HTTP plumbing.
- `main` (main.go:95-102): router setup, port binding and logging.
- The requested count of 5000 in the upstream URL (main.go:43): nothing in the code depends on the number of results received.
- The upstream HTTP status code: the code never inspects it, so a non-success status with a decodable body is treated as success; the model follows the code.
- The `%w` wrapping of the cause (main.go:46, 52, 57): `Fetcher.FetchError.Message` gives the error text as the stage's fixed prefix followed by the cause's text, but the unwrapping of the underlying error that `%w` allows Go callers is not modelled.
- Strings are sequences of characters; Go compares map keys byte by byte, which gives the same equality.
