# Student roster: backend store and client view

This project models the student roster of a small full-stack application.
The backend keeps the roster in memory as an array `estudiantes` of
records `{ id, nombre, correo }` together with a counter `idActual`, and
serves three operations: list, create (400 when `nombre` is falsy,
otherwise 201 with a record whose id is the counter, which then goes up by
one) and delete (404 for an unknown id, otherwise `{ ok: true }` and the
array without that id). The React client loads the list, filters it by a
search query, checks its form before creating, and updates its own copy of
the list after a create or a delete.

Files:

- `js_values.dfy` (`JsValues`): a JSON field that may be missing, and the
  truthiness behind `!x` and `x || y`.
- `js_array.dfy` (`JsArray`): `filter` and `some` over sequences, and the
  order-preserving subsequence relation.
- `js_string.dfy` (`JsString`): `trim` (with the ECMAScript white-space
  and line-terminator set), `toLowerCase` and `includes`.
- `roster.dfy` (`Roster`): the backend store as a class `RosterStore` with
  fields `estudiantes` and `idActual`. Its methods `List`, `Create` and
  `Delete` return the HTTP reply (status and JSON body). `Valid()` is the
  store invariant: ids strictly increase along the array, every present id
  was issued, and every issued id lies in `[1, idActual)`. A ghost set
  `Issued` records every id ever handed out, so "never reused" can be
  stated.
- `app.dfy` (`App`): the client's pure logic. This covers the search
  filter `listaFiltrada`, the form check and payload, the unwrap
  `nuevo.estudiante || nuevo`, the two list updaters, and the
  `Array.isArray` load fallback.
- `sync.dfy` (`Sync`): the client and backend together. The client's list
  is the JSON view of the backend's array. The client flows (load, create,
  delete) are methods that call the store directly in place of the HTTP
  round trip, and each one is proved to keep the client's list equal to
  that view.

A record's name is meant to be non-empty after trimming, but only the
client enforces that. The backend tests only falsiness, so it accepts a
name made of spaces (`Sync.BlankNameAcceptedOnlyByBackend`). The model
follows the code on both sides.

## Model

| member | source | states |
|---|---|---|
| `Roster.RosterStore.constructor` | backend-estudiantes/server.js:11-13 | A fresh process starts with an empty array, the counter at 1, no id issued, and the store invariant holding. |
| `Roster.RosterStore.Valid` | backend-estudiantes/server.js:12-13 | The store invariant: the counter is at least 1, ids strictly increase along the array, every present id was issued, and every issued id is below the counter. It implies that every present id lies in `[1, idActual)`. |
| `Roster.RosterStore.List` | backend-estudiantes/server.js:20-23 | The list request answers 200 with the current array as it is, and changes no state. |
| `Roster.RosterStore.Create` | backend-estudiantes/server.js:25-41 | A falsy `nombre` (missing or empty) gives 400 "El nombre es obligatorio" and leaves array, counter and issued ids unchanged. Otherwise the reply is 201 with `Student(old idActual, nombre, c)`, where `c` is `correo` when truthy and `''` otherwise. That record is appended once at the end, earlier records are untouched, the counter goes up by exactly 1, and the new id was never issued before and exceeds every present id. The invariant is kept. |
| `Roster.RosterStore.Delete` | backend-estudiantes/server.js:43-54 | An id no record has gives 404 "Estudiante no encontrado" and leaves the array unchanged. Otherwise the reply is 200 `{ok:true}` and the array becomes its filter without that id, exactly one record shorter. The counter and issued ids never change, and the invariant is kept. |
| `Roster.FilterKeepsIdsIncreasing` | backend-estudiantes/server.js:52 | Filtering the array keeps ids strictly increasing. |
| `Roster.IncreasingIdsUnique` | backend-estudiantes/server.js:34 | Ids that strictly increase along the array are pairwise distinct, so no other record shares the id of a given record. |
| `Roster.DeleteRemovesExactlyOne` | backend-estudiantes/server.js:52 | When no other record has the id of record `k`, deleting that id gives exactly the array without position `k`. |
| `Roster.DeleteShrinksByOne` | backend-estudiantes/server.js:46-52 | When some record has the id, the delete removes exactly one record. |
| `Roster.DeleteLeavesNoMatch` | backend-estudiantes/server.js:46-52 | After a delete no record has that id, so `.some` fails and a second delete of the same id answers 404. |
| `Roster.SessionCreates` | backend-estudiantes/server.js:26-41 | On a fresh store, creating "Ana" and then "Luis" (no email) gives ids 1 and 2 in order, and an empty name is refused without changing the roster. |
| `Roster.Session` | backend-estudiantes/server.js:21-54 | Continuing that session, deleting id 1 answers `{ok:true}`, the list then holds only Luis, and deleting id 1 again answers 404. |
| `JsValues.StringOr` | backend-estudiantes/server.js:36 | `x or fallback` for a string field: the field's string when it is truthy, the fallback when it is missing or empty. |
| `JsValues.StringOrEmptyIsIdentity` | backend-estudiantes/server.js:36 | For a present string, falling back to `''` gives `s` itself, including the empty string. |
| `JsValues.ObjectOr` | frontend/src/App.jsx:82 | `x or fallback` for an object field: the field's value when it is present, the fallback otherwise. |
| `JsArray.Filter` | backend-estudiantes/server.js:52 | `filter` returns exactly the elements of its input for which the callback holds. |
| `JsArray.FilterIsSubsequence` | frontend/src/App.jsx:47-51 | `filter` keeps what it keeps in the original order: the result is an order-preserving subsequence of the input. |
| `JsArray.FilterCount` | frontend/src/App.jsx:47-51 | `filter` keeps every copy of a kept element and drops every copy of a rejected one. |
| `JsArray.FilterKeepsAll` | backend-estudiantes/server.js:52 | A filter that rejects nothing returns its input unchanged. |
| `JsArray.FilterDropsOne` | backend-estudiantes/server.js:52 | A filter that rejects the element at position `k` and nothing else returns the input without that position. |
| `JsArray.FilterConcat` | backend-estudiantes/server.js:52 | Filtering a concatenation is the concatenation of the filtered parts. |
| `JsArray.Any` | backend-estudiantes/server.js:46 | `some` holds exactly when some element of the array satisfies the callback. |
| `JsString.TrimStart` | frontend/src/App.jsx:45 | Removing leading white space yields a suffix that does not start with white space, and everything removed is white space. |
| `JsString.TrimEnd` | frontend/src/App.jsx:45 | Removing trailing white space yields a prefix that does not end with white space, and everything removed is white space. |
| `JsString.LeadingWhitespace` | frontend/src/App.jsx:60 | Gives the length of the white-space run at the start of a string. The character after the run is not white space. |
| `JsString.Trim` | frontend/src/App.jsx:70-71 | `trim` returns the contiguous slice between the leading and trailing white space. The slice starts and ends with a non-white-space character. |
| `JsString.BlankIffAllWhitespace` | frontend/src/App.jsx:45 | `!s.trim()` holds exactly when every character of `s` is white space. |
| `JsString.TrimIdempotent` | frontend/src/App.jsx:70-71 | Trimming a trimmed string changes nothing. |
| `JsString.Lower` | frontend/src/App.jsx:46 | `toLowerCase` keeps the length and maps each character by the case map, so no capital is left. |
| `JsString.Includes` | frontend/src/App.jsx:49-50 | `includes` can only hold when the needle is no longer than the string, and always holds for a prefix, the empty needle included. |
| `App.FieldMatches` | frontend/src/App.jsx:49-50 | `field?.toLowerCase().includes(term)` can only hold for a present field at least as long as the term. |
| `App.MatchesTerm` | frontend/src/App.jsx:48-50 | The search callback rejects a record with neither name nor email, and accepts a record exactly when one of its two fields matches. |
| `App.Filtered` | frontend/src/App.jsx:44-52 | The shown list holds only records of the list. For a non-blank query each of them matches the lower-cased query. |
| `App.Loaded` | frontend/src/App.jsx:32 | An array body is kept as the list, and any other body gives the empty list. |
| `App.BlankQueryShowsAll` | frontend/src/App.jsx:45 | A query that is empty or all white space shows the whole list unchanged. |
| `App.FilteredIsSubsequence` | frontend/src/App.jsx:47-51 | The shown list is an order-preserving subsequence of the list, so "Mostrando" never exceeds "Total estudiantes" (lines 142, 146). |
| `App.FilteredKeepsExactlyMatches` | frontend/src/App.jsx:46-50 | For a non-blank query, a record is shown exactly when its lower-cased `nombre` or `correo` includes the lower-cased, untrimmed query. It is shown as many times as it occurs. An absent field never matches. |
| `App.LowerExamples` | frontend/src/App.jsx:46 | Lower-casing "Ana", " ANA" and "AN" gives "ana", " ana" and "an". |
| `App.QueryLowerCasedNotTrimmed` | frontend/src/App.jsx:46-50 | The query " ANA" does not match the name "Ana" because its leading space is kept, while "AN" matches. |
| `App.ValidateForm` | frontend/src/App.jsx:60-72 | The form is refused with "El nombre es obligatorio" exactly when the name is all white space. Otherwise it sends the trimmed name and the trimmed email. |
| `App.SentNameIsTrimmed` | frontend/src/App.jsx:60-70 | The name the form sends is non-empty and neither starts nor ends with white space. |
| `App.PayloadIsTrimmed` | frontend/src/App.jsx:69-72 | The fields the form sends are already trimmed. |
| `App.Unwrap` | frontend/src/App.jsx:82 | The unwrap of the create reply is the `estudiante` field when it is present, and the reply itself otherwise. |
| `App.Appended` | frontend/src/App.jsx:84 | The create updater keeps the previous list as a prefix and adds the new record once, at the end. |
| `App.Removed` | frontend/src/App.jsx:103 | The delete updater keeps a record exactly when it was in the previous list and has a different id. |
| `App.RemovedDropsOnlyThatId` | frontend/src/App.jsx:103 | After the delete updater, no record has the id. Every other record keeps its order and its number of occurrences. |
| `Sync.View` | backend-estudiantes/server.js:22 | The client receives the backend's array position by position, with both fields present. |
| `Sync.CreateInSync` | frontend/src/App.jsx:80-84 | Appending the unwrapped create reply mirrors the backend's append. This holds for the bare record this backend sends and for a reply wrapping it in `estudiante`. |
| `Sync.DeleteInSync` | frontend/src/App.jsx:103 | Removing an id from the client's list mirrors the backend's filter. |
| `Sync.SentPayloadAccepted` | frontend/src/App.jsx:69-72 | A payload the form sends passes the backend's falsiness check, and its email is stored as sent. |
| `Sync.BlankNameAcceptedOnlyByBackend` | backend-estudiantes/server.js:29-31 | The backend accepts the name " ", which the form refuses. |
| `Sync.CrearEstudiante` | frontend/src/App.jsx:55-91 | For a blank name, the flow reports the error and changes nothing. Otherwise the backend appends `Student(old idActual, trim(nombre), trim(correo))` and the client's list stays equal to the backend's array. |
| `Sync.EliminarEstudiante` | frontend/src/App.jsx:94-107 | A cancelled confirmation changes nothing, the error message included. An unknown id sets the error to "No se pudo eliminar" and leaves the list unchanged. Otherwise the id is dropped, the list is one shorter and the error message is left as it was. In every case the client's list equals the backend's array. |
| `Sync.Cargar` | frontend/src/App.jsx:18-41 | The initial load shows exactly the backend's array. |

## Left out

- Express plumbing is not modelled: `dotenv`, `cors`, `express.json`, routing, the port and `app.listen`. Neither are the health route `GET /api` and the separate `backend/server.js`, which only answers a constant message.
- Parsing the path id with `Number(req.params.id)`, including NaN: the delete takes an already parsed integer.
- Request-body fields that are not strings (numbers, objects, booleans) are not modelled. `nombre` and `correo` are either a string or missing, and `null` counts as missing.
- Roster.RosterStore.Create: ids and the counter are unbounded integers. The source's counter is a double-precision number, which stops growing exactly beyond 2^53.
- Roster.RosterStore.Create: the counter resets when the process restarts, because nothing is persisted. Ids issued before a restart can then be issued again. The model covers one process lifetime only.
- JsString.Lower: only the ASCII capitals and the Latin-1 capitals (U+00C0 to U+00DE except U+00D7) are mapped. Every other character is kept. The full Unicode case map, including mappings that change a string's length, is not modelled.
- The network is not modelled: `fetch`, `async`/`await`, `res.json()`/`res.text()` and network errors. In `Sync` each request is a direct call on the store. Because of this, the "No se pudo crear el estudiante" path of the create flow and the error path of the initial load cannot occur in the model.
- React state is not modelled: the scheduling of `useState`/`useEffect`/`useMemo`, the loading and success flags, clearing the form after a create, and the rendering. `window.confirm` becomes the boolean parameter `confirmar` of `Sync.EliminarEstudiante`.
- Concurrency: none, since handlers run one at a time on a single process.
- A Dafny string is a sequence of Unicode scalar values, while a JavaScript string is a sequence of UTF-16 code units. Lone surrogates cannot be represented, and lengths and positions are counted in scalar values.
