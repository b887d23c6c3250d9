# Media service over GraphQL: a Dafny model

The service keeps media records (id, name, type) in memory and serves them over
GraphQL. A credential table holds two users. The model covers the data and the
five resolvers:

- `media`: one record by id, behind a credential check that compares usernames
  exactly and treats the supplied password as a regular expression searched for
  in the stored password.
- `mediaList`: the records whose name matches `(.*)<username>(.*)`, behind a
  credential check where the username is also a pattern.
- `create`: appends a record with a random id.
- `update`: patches the first record with the id.
- `delete`: splices records with the id out of the slice while ranging over it.

Files:

- `wrappers.dfy`: `Option`.
- `catalog.dfy`: the records, the seed data, the argument bag a resolver
  receives, the outcomes a resolver can produce, and the find-first scan.
- `regex.dfy`: the regular-expression engine. It is a parameter, described by
  what it compiles and what it matches. Two predicates state facts about RE2.
  `FindsLiterals` says literals match where they occur, and the seed examples
  rest on it. `WildcardMatchesAll` says `.*` matches everything, and the two
  wildcard-password lemmas rest on it. `LiteralEngine` is a concrete engine for
  which both hold, so neither group of lemmas rests on contradictory
  assumptions.
- `queries.dfy`: `media` and `mediaList`.
  - Each is a specification function over the credential table, the store and
    the arguments.
  - Each also has a method with the resolver's loops, proved equal to that
    function.
  - Lemmas state what the checks let through and what the answers contain.
- `store.dfy`: the store as a class over an array plus a length, which is Go's
  backing array and slice length. `create`, `update` and `delete` are methods
  that change it in place, each proved against a function on sequences. Lemmas
  about those functions state what each mutation does to the records.

A Go panic inside a resolver is an outcome of its own (`Outcome.Panic`). The
GraphQL executor recovers it and reports an error for the field. Anything the
resolver changed before panicking stays changed.

The model follows the code, including where it departs from what the schema's
field descriptions ("Get media by id", "Create new media", "Delete media by
id") and the comment showing a `mediaList` call lead one to expect:

- In `media`, a username with no entry in the table is not an error. The check
  is skipped and the lookup goes ahead. Only the first entry with an equal
  username is consulted.
- `mediaList` compiles the username before checking that it was supplied. A
  supplied username that is not a valid pattern therefore panics even when the
  password is missing, before "password not found" can be reported.
- A password or username that is not a valid pattern panics (`MustCompile`). It
  is not returned as an error.
- `create` reads the argument `info`, which the schema does not declare, with
  an assertion that has no comma-ok. Called through the schema, it always
  panics and appends nothing.
- `delete` does not simply remove the first record with the id (see Findings).
- No resolver takes a lock.
- A lookup by id after `create` finds the new record only when no older record
  already has that id.

## Model

| member | source | states |
|---|---|---|
| Catalog.FindById | CRUD.go:143-147 | The answer is the first record in store order with the id. None exactly when no record has the id. |
| Queries.ResolveMedia | CRUD.go:122-150 | The resolver's two scans, with break and early returns, compute exactly the specification function `MediaQuery`. |
| Queries.MediaChecksArgumentsFirst | CRUD.go:123-130 | A missing or non-string username gives "username not found". Otherwise a missing password gives "password not found", whatever the table and the store hold. |
| Queries.MediaMismatch | CRUD.go:131-139 | "password mismatch" happens if and only if the first entry with an equal username has a stored password that the compiled password pattern does not match. |
| Queries.MediaConsultsFirstNamedOnly | CRUD.go:131-139 | Entries after the first one with the username never affect the answer. |
| Queries.MediaUnknownUserPasses | CRUD.go:131-140 | A username no entry has gives the same answer as an empty table: the check is skipped and the password is never compiled. |
| Queries.MediaResult | CRUD.go:140-149 | Past the check, the answer is nil or a record. It is nil if and only if there is no int id or no record has it. A record answer is the first with that id. |
| Queries.MediaWildcardPassword | CRUD.go:133-136 | The password `.*` gets past the check for every username, as if there were no table. |
| Queries.SeedMediaAccepts | CRUD.go:122-150 | On the seed data, `hawk`/`123` without an id passes the check and answers nil. |
| Queries.SeedMediaFindsTwo | CRUD.go:122-150 | On the seed data, `hawk`/`123` with id 2 answers the record `media_sunset_hawk`. |
| Queries.SeedMediaRejects | CRUD.go:131-139 | On the seed data, `hawk`/`999` is a password mismatch. |
| Queries.SeedMediaUnknownUser | CRUD.go:131-150 | On the seed data, an unknown username passes with any password, even one that does not compile. |
| Queries.ResolveMediaList | CRUD.go:166-193 | The resolver's loops (the check with break, then the accumulating filter) compute exactly `MediaListQuery`. |
| Queries.MediaListChecksArgumentsFirst | CRUD.go:167-175 | With a compiling username pattern, a missing username gives "username not found", then a missing password gives "password not found". |
| Queries.MediaListBadUsernamePanics | CRUD.go:167-171 | A supplied username that does not compile panics before anything else is checked. |
| Queries.MediaListMismatch | CRUD.go:176-184 | "password mismatch" happens if and only if the first entry whose username the pattern matches has a stored password that the compiled password pattern does not match. |
| Queries.MediaListAdmitted | CRUD.go:176-192 | Past the check, the answer is the filtered list built with the pattern `(.*)<username>(.*)`. |
| Queries.MediaListResult | CRUD.go:185-192 | Past the check, the list keeps store order. It holds exactly the records whose name matches `(.*)<username>(.*)`, each as many times as the store holds it, and it is empty when none does. |
| Queries.NamesMatchingIsFilter | CRUD.go:186-191 | The filter loop yields a subsequence of the store. It holds exactly the records whose name the pattern matches, with the same number of copies as the store. |
| Queries.MediaListWildcardPassword | CRUD.go:178-181 | The password `.*` gets past the check, as if there were no table. |
| Queries.SeedHawkList | CRUD.go:166-193 | On the seed data, `hawk`/`123` lists `media_sunset_hawk` and `hawk's workout`, in that order. |
| Store.MediaStore.constructor | CRUD.go:26-57 | The store starts holding exactly the given records (the seed). |
| Store.MediaStore.Create | CRUD.go:212-221 | The answer is the built record or the assertion panic. On success the store's records are the old records plus that record at the end; on panic they are unchanged. |
| Store.CreateNeedsUndeclaredInfo | CRUD.go:204-217 | With only the declared arguments `name` and `type`, `create` panics. With a string name, it panics on `info`. |
| Store.CreateThenFind | CRUD.go:214-220 | After the append, a lookup by the new id finds the new record if no older record has that id. Otherwise it finds the older one. |
| Store.MediaStore.Update | CRUD.go:238-256 | The in-place loop with break leaves the store equal to `UpdateFirst` of the old store and answers with its record. |
| Store.UpdateChangesFirstMatchOnly | CRUD.go:243-254 | Only the first record with the id changes. Its name changes only if a name was supplied, its type only if a type was. Length and all other records are kept. With no match the store is unchanged and the answer is the zero record. |
| Store.UpdateThenFind | CRUD.go:243-255 | When some record has the id, a lookup by id afterwards returns the answered record. |
| Store.UpdateWithoutFields | CRUD.go:240-251 | With no name and no type, the store is unchanged and the answer is the first record with the id, or the zero record. |
| Store.MediaStore.Delete | CRUD.go:267-278 | The range loop over the original length, splicing in place, leaves the live records, the answer (including the panic) and the array's first old-length cells, stale tail included, as given by `DeleteSweep` of the old store. |
| Store.DeleteKeepsOtherRecords | CRUD.go:270-274 | Even when it panics, `delete` keeps every record with another id, in order, and adds none. |
| Store.DeleteAbsent | CRUD.go:268-277 | With an id no record has, nothing changes and the answer is the zero record. |
| Store.DeleteRemovesFirstMatch | CRUD.go:270-274 | When some record has the id, the store shrinks, the records before the first match keep their places, and what remains is drawn from the store without that first match. |
| Store.DeleteUnique | CRUD.go:267-277 | When exactly one record has the id, that record is removed, the rest stay in order, and it is the answer. |
| Store.DeleteSkipsAdjacentDuplicate | CRUD.go:270-274 | For two adjacent records with the id after any run of records without it, with anything after them, the first is removed. The second shifts into the slot just visited and is still live when the loop ends, whether or not it panics later. |
| Store.DeleteOutcome | CRUD.go:268-277 | The answer is a record or a panic. With no record having the id it is the zero record. Otherwise a record answer has the id, comes from the store, and the store afterwards holds fewer copies of it: it is a record `delete` removed. |
| Store.DeleteAdjacentPairAtEndPanics | CRUD.go:270-274 | Two records with the id at the end: the first is removed. The second is then met in the stale last cell past the new length, and `medias[i]` panics. |
| Store.SeedDeleteFivePanics | CRUD.go:270-274 | On the seed data, deleting id 5 removes `hello_media_admin` and then panics with index 5 out of range for length 5. |
| Store.MediaStore.DeleteFirst | CRUD.go:267-278 | The corrected `delete` (splice, then break) leaves the store equal to `RemoveFirst` of the old store. |
| Store.RemoveFirstRemovesOne | CRUD.go:270-274 | The corrected `delete` removes exactly the first record with the id and answers with it. With no match, nothing changes and the answer is the zero record. |
| Store.DeleteAgreesWhenUnique | CRUD.go:270-274 | When at most one record has the id, the code as written and the corrected `delete` give the same store and answer. |
| Store.RemoveFirstTwice | CRUD.go:267-277 | Deleting an id that occurred once, a second time, changes nothing and answers the zero record. |

## Left out

- The HTTP server and the query entry point (CRUD.go:290-309): parsing the query string, `graphql.Do`, and JSON encoding of the result. A nil list and an empty list are the same value here.
- The schema objects (CRUD.go:70-120, 155-165, 198-211, 283-288), including the unused `User` object type. The executor's validation and coercion of arguments are not modelled. A resolver receives an argument bag with whatever keys and values the caller supplied, and `NonNull` declarations are not enforced.
- The regular-expression engine itself. RE2 syntax and matching are a parameter. Only the facts the examples need are stated about it.
- `rand.Seed(time.Now().UnixNano())` and `rand.Intn(100000)`: the id of `create` is a parameter in [0, 100000).
- The text of panic messages: a panic carries only its cause.
- Concurrent requests: the Go code mutates a global slice without a lock, and the model runs one resolver at a time.
- Store.MediaStore.Create: the growth policy of Go's `append` is not Go's. The new array has length 2n+1. Only the contents of the store are stated.
- Media ids are unbounded integers. The `int64`/`int` conversions in the id comparisons (`int(m.ID) == id`, `int64(id) == p.ID`) are taken as exact, which holds on 64-bit platforms.
- Store.DeleteOutcome: states that the answer is a record with the id that was removed, not that it is the last one removed. The general form would need the loop's removals tracked as a sequence. Store.DeleteUnique gives the exact answer when one record has the id.
- Aliasing between the slice a resolver ranges over and the global variable is modelled only for `delete`, where it matters: the loop reads the shifted array.

## Findings

| source | as written | input that shows it | evidently intended | confidence | as-written member | corrected member |
|---|---|---|---|---|---|---|
| CRUD.go:270-274 | `delete` keeps ranging after a splice. The range length is fixed, later elements shift left under the loop, and `medias[i]` is indexed against the shrunken slice. | `delete(id: 5)` on the seed: `hello_media_admin` is removed, `hawk's workout` is met again past the new length, and `medias[5]` panics. Two adjacent records with one id in mid-store: the second is skipped and survives. | Remove the first record with the id, answer with it, never panic. | not executed | Store.SeedDeleteFivePanics | Store.RemoveFirstRemovesOne |
