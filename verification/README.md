# livros_api — a Dafny model of the book/category CRUD core

`livros_api` is a small FastAPI + SQLAlchemy service with two related tables.
`livros` holds books. `categorias` holds categories. A book may belong to at
most one category through a nullable `categoria_id` foreign key. The logic
that is not framework wiring lives in three files:

- `crud.py`: the `LivroCRUD` and `CategoriaCRUD` classes (create, read,
  read_all, read_by_categoria, partial update, delete). It holds the one
  business rule: a category that still has books cannot be deleted.
- `schemas.py`: the pydantic request schemas, which enforce length and
  year bounds.
- `models.py`: the two ORM records. Every column except the primary key is
  nullable.

The model is functional. The database is a `Store` with two immutable maps
(`map<int, Livro>`, `map<int, Categoria>`). Every operation is a pure
function that returns a `Step`: the new store together with an outcome. The
outcome is `Ok(value)`, or `ValueError(message)` with the same message the
Python code raises. Stored columns are `Option` values because the table
columns are nullable. A patch field is a `FieldPatch`: either `Unset` or
`Set(v)`, where `v` may itself be null. This mirrors
`dict(exclude_unset=True)`, which applies an explicit `null`.

Modules:

- `Wrappers`: `Option` and `FieldPatch`.
- `Keys`: the id the next insert receives, and a table scan in ascending key order.
- `Models`: records, the store, the primary-key and referential-integrity invariants, and the two relationship views.
- `Schemas`: validators and Read views.
- `Outcomes`: results and error messages.
- `LivroCrud` and `CategoriaCrud`: the two CRUD classes.
- `Properties`: lemmas that span several calls. These cover:
  - reads after writes;
  - the partial-update contract;
  - the invariants every sequence of write requests keeps: primary keys and referential integrity for the program as written, and, in addition, readable rows when patches pass the corrected non-null validators;
  - the test-suite scenarios;
  - the explicit-null finding.

The error paths follow `crud.py` exactly:

- `CategoriaCRUD.delete` checks for a missing id before it runs the books guard (crud.py:94-104).
- A delete of a missing id returns `False`; it raises nothing (crud.py:56-57, crud.py:95-96).
- `CategoriaCRUD.create` and `update` have no integrity-error path (crud.py:69-91).

Whether the database rejects a book row (an `IntegrityError` at commit) is
given to the model as a parameter, `accepts: RowCheck`. Every book create
and update consults it; book delete does not. `EnforcesForeignKey(accepts)` describes a database that
enforces the foreign key.

## Model

| member | source | states |
|---|---|---|
| Keys.Fresh | models.py:9 | The id a new row receives is not yet a key and is larger than every existing key. It is 1 on an empty table. |
| Keys.Scan | crud.py:28-30 | A table scan lists every stored row exactly once, in ascending key order, and lists nothing that is not stored. |
| Models.KeyedIdsAreUnique | models.py:9-21 | When every row sits under its own id, two rows of the same table that share an id are the same row. |
| Models.Keyed | models.py:9-21 | The primary-key invariant: every row of each table is filed under its own `id`. |
| Models.LinksLiveCategoria | models.py:15 | One book's foreign key holds: its `categoria_id` is null or the id of a stored category. |
| Models.ReferentialIntegrity | models.py:15 | Referential integrity: every stored book's foreign key holds. |
| Models.EnforcesForeignKey | models.py:15 | A database that enforces the foreign key: it refuses every book row whose `categoria_id` names no stored category. |
| Models.LivrosOf | models.py:26 | `Categoria.livros`: the stored books whose `categoria_id` is the category's id. |
| Models.CategoriaOf | models.py:16 | `Livro.categoria`: the stored category a book's `categoria_id` names, or None when it is null or dangling. |
| Models.RelationViewsAgree | models.py:15-26 | `Categoria.livros` and `Livro.categoria` are two views of one relation: a book is in a category's `livros` exactly when its `categoria` is that category. |
| Models.UnreferencedRemovalKeepsIntegrity | models.py:15 | Removing a category that no book references leaves every book's `categoria_id` null or pointing at a live category. |
| Schemas.CategoriaReadOf | schemas.py:13-14 | A stored category has a Read view exactly when it is the row of a valid create record. That view is the record plus the id. |
| Schemas.ValidCategoriaCreate | schemas.py:5-7 | A category create record is valid iff `nome` has between 1 and 100 characters and `descricao` is absent or has at most 500 characters. |
| Schemas.ValidCategoriaUpdate | schemas.py:9-11 | A category patch is valid iff a supplied non-null `nome` has between 1 and 100 characters and a supplied non-null `descricao` has at most 500 characters. An unset field and an explicit null always pass. |
| Schemas.ValidCategoriaUpdateNonNull | schemas.py:9-11 | The corrected category patch validator: `ValidCategoriaUpdate` and, in addition, no explicit null for `nome`. |
| Schemas.ValidLivroCreate | schemas.py:21-25 | A book create record is valid iff `titulo` has between 1 and 200 characters, `autor` has between 1 and 100 characters, and `ano_publicacao` is between 1000 and 2030 inclusive. `categoria_id` is unconstrained. |
| Schemas.ValidLivroUpdate | schemas.py:27-31 | A book patch is valid iff each supplied non-null `titulo`, `autor` and `ano_publicacao` obeys the create bound for that field. An unset field and an explicit null always pass, and `categoria_id` is unconstrained. |
| Schemas.ValidLivroUpdateNonNull | schemas.py:27-31 | The corrected book patch validator: `ValidLivroUpdate` and, in addition, no explicit null for `titulo`, `autor` or `ano_publicacao`. |
| Schemas.CategoriaRow | crud.py:70 | The row `Categoria(**data.dict())` stores under an id: `nome` and `descricao` copied from the create record. |
| Schemas.LivroRow | crud.py:16 | The row `Livro(**data.dict())` stores under an id: the four create fields copied from the create record. |
| Schemas.LivroReadOf | schemas.py:33-34 | A stored book has a Read view exactly when it is the row of a valid create record. That view is the record plus the id. |
| Schemas.LivroReadRoundTrip | schemas.py:21-34 | Storing a valid book create record and reading it back gives the record plus its id. |
| Schemas.CategoriaReadRoundTrip | schemas.py:5-14 | Storing a valid category create record and reading it back gives the record plus its id. |
| Schemas.YearBoundsInclusive | schemas.py:24 | The year bounds are inclusive: 1000 and 2030 are accepted, while 999 and 2031 are refused. |
| Schemas.InvalidSampleRejected | test_api.py:75-78 | The test's invalid body (empty title, year 3000) fails the book create validator. |
| Schemas.UpdateBoundsMatchCreate | schemas.py:21-31 | A patch that sets every field passes the patch validator exactly when the create record passes the create validator. The empty patch is valid. The same holds for categories (schemas.py:5-11). |
| LivroCrud.Create | crud.py:14-23 | Create succeeds exactly when the database accepts the new row. On success it adds one row under a fresh id, holding the input fields, and every other row stays the same. On rejection the store is unchanged and "Erro de integridade" is raised. |
| LivroCrud.Read | crud.py:25-26 | Read returns the book stored under the id, or None when the id is absent. |
| LivroCrud.ReadAll | crud.py:28-30 | ReadAll returns every stored book, with as many entries as there are books and nothing that is not stored. |
| LivroCrud.ReadAllAscending | crud.py:28-30 | Under the primary-key invariant, the listing is in strictly ascending id order. |
| LivroCrud.InCategoria | crud.py:34-37 | A row is in the filtered list exactly when it is in the input and its `categoria_id` is the requested one. An input in ascending id order gives an output in ascending id order. |
| LivroCrud.MatchingPositions | crud.py:34-37 | The reference selection: the positions of the rows whose `categoria_id` is the requested one, each once, in increasing order. |
| LivroCrud.InCategoriaSelects | crud.py:34-37 | The filter is exactly that selection: its i-th row is the row at the i-th matching position. So every matching row is kept as often as it occurs, in its original order, and nothing else is kept. |
| LivroCrud.ReadByCategoria | crud.py:32-38 | ReadByCategoria lists every stored book of the category, and only stored books of that category. |
| LivroCrud.ReadByCategoriaAscending | crud.py:32-38 | Under the primary-key invariant, the filtered listing is in strictly ascending id order. |
| LivroCrud.ListedIffRelated | crud.py:98-102 | The count that category delete tests is positive exactly when the category's `livros` relation is non-empty. |
| LivroCrud.Patch | crud.py:44-45 | The row the `setattr` loop produces: each set field (null included) replaces the stored value, and the id and unset fields stay. |
| LivroCrud.PatchedFrom | crud.py:44-45 | The partial-update contract per field: the id is unchanged, a set field holds the supplied value, and an unset field keeps its prior value. |
| LivroCrud.Update | crud.py:40-52 | An absent id gives None and no change. Otherwise the fields the patch set take the supplied values (null included), the others keep theirs, and only that row changes. A changed row the database refuses rolls back and raises "Erro de integridade". |
| LivroCrud.Delete | crud.py:54-60 | Delete reports whether the id existed, removes exactly that id, and leaves every other row unchanged. |
| CategoriaCrud.Create | crud.py:69-74 | Create always succeeds. It adds one row under a fresh id, holding the input fields. Other categories and all books are unchanged. |
| CategoriaCrud.Read | crud.py:76-77 | Read returns the category stored under the id, or None when the id is absent. |
| CategoriaCrud.ReadAll | crud.py:79-81 | ReadAll returns every stored category, with as many entries as there are categories and nothing that is not stored. |
| CategoriaCrud.ReadAllAscending | crud.py:79-81 | Under the primary-key invariant, the listing is in strictly ascending id order. |
| CategoriaCrud.Patch | crud.py:87-88 | The row the `setattr` loop produces: each set field (null included) replaces the stored value, and the id and unset fields stay. |
| CategoriaCrud.PatchedFrom | crud.py:87-88 | The partial-update contract per field: the id is unchanged, a set field holds the supplied value, and an unset field keeps its prior value. |
| CategoriaCrud.Update | crud.py:83-91 | Update never raises. An absent id gives None and no change. Otherwise the fields the patch set take the supplied values and the others keep theirs. Books are untouched. |
| CategoriaCrud.Delete | crud.py:93-107 | An absent id gives False and no change. This check comes first. A category that some book still references raises the in-use message with the store unchanged. Otherwise only that category is removed and the result is True. Books are never touched, and referential integrity is preserved. |
| Properties.CreateLivroThenRead | crud.py:14-26 | A book create that succeeded reads back under the returned id. For a valid input, its Read view is the input plus that id. |
| Properties.CreateCategoriaThenRead | crud.py:69-77 | A category create reads back under the returned id. For a valid input, its Read view is the input plus that id. |
| Properties.DeleteThenRead | crud.py:54-60 | After a book delete, reading that id gives None. The same holds after a category delete that returned True. |
| Properties.CreateWithMissingCategoriaFails | crud.py:14-23 | With the foreign key enforced, creating a book that names a missing category raises "Erro de integridade" and stores nothing. |
| Properties.LivroPatchIsDetermined | crud.py:44-45 | The per-field partial-update contract holds for exactly one result: the row the `setattr` loop produces. |
| Properties.CategoriaPatchIsDetermined | crud.py:87-88 | The per-field partial-update contract holds for exactly one result: the row the `setattr` loop produces. |
| Properties.EmptyPatchIsIdentity | crud.py:40-52 | A patch that sets nothing returns the stored record and leaves the store unchanged, for books and for categories. |
| Properties.FullPatchReplaces | crud.py:40-52 | A patch that sets every field (a full PUT body) turns the stored record into the row of that create record. |
| Properties.ReadByCategoriaIsRelation | crud.py:32-38 | `read_by_categoria(c)` holds exactly the books of category `c`'s `livros` relation. |
| Properties.LivroNonNullPatchKeepsReadView | schemas.py:27-31 | A book patch that passes the corrected validator (no null for a field the Read view requires) keeps a readable book readable. |
| Properties.CategoriaNonNullPatchKeepsReadView | schemas.py:9-11 | A category patch that passes the corrected validator keeps a readable category readable. |
| Properties.CreateLivroKeepsConsistency | crud.py:14-23 | With the foreign key enforced, a validated book create keeps three invariants: primary keys, referential integrity, and every row readable. |
| Properties.UpdateLivroKeepsConsistency | crud.py:40-52 | With the foreign key enforced, a book update whose patch passes the corrected non-null patch validator keeps the three invariants. |
| Properties.DeleteLivroKeepsConsistency | crud.py:54-60 | A book delete keeps the three invariants. |
| Properties.CreateCategoriaKeepsConsistency | crud.py:69-74 | A validated category create keeps the three invariants. |
| Properties.UpdateCategoriaKeepsConsistency | crud.py:83-91 | A category update whose patch passes the corrected non-null patch validator keeps the three invariants. |
| Properties.DeleteCategoriaKeepsConsistency | crud.py:93-107 | A category delete keeps the three invariants, because the books guard runs before the row is removed. |
| Properties.ApplyPreservesConsistency | crud.py:14-107 | Any single write request keeps the three invariants, provided its create record passes the create validator or its patch passes the corrected non-null patch validator. |
| Properties.RunPreservesConsistency | crud.py:14-107 | Any sequence of write requests keeps the three invariants, provided every create passes the create validator and every patch passes the corrected non-null patch validator. |
| Properties.Admitted | schemas.py:5-31 | A write request is admitted when its create record passes the create validator, or its patch passes the corrected non-null patch validator. Deletes are always admitted. |
| Properties.Readable | schemas.py:13-34 | Every stored book and category has a Read view, so it can be sent back in a response. |
| Properties.Consistent | models.py:9-21 | Primary keys, referential integrity and readable rows together. |
| Properties.EmptyIsConsistent | models.py:6-26 | The empty database satisfies the three invariants. |
| Properties.ReachableIsConsistent | crud.py:14-107 | Every database built from the empty one satisfies the three invariants, provided every create passes the create validator and every patch passes the corrected non-null patch validator. Under the patch validators as written this fails (see Findings). |
| Properties.Integral | models.py:9-21 | Primary keys and referential integrity together: the part of consistency that does not depend on any validator. |
| Properties.CreateLivroKeepsIntegrity | crud.py:14-23 | With the foreign key enforced, any book create keeps primary keys and referential integrity. |
| Properties.UpdateLivroKeepsIntegrity | crud.py:40-52 | With the foreign key enforced, any book update keeps primary keys and referential integrity, an explicit-null patch included. |
| Properties.CreateCategoriaKeepsIntegrity | crud.py:69-74 | Any category create keeps primary keys and referential integrity. |
| Properties.UpdateCategoriaKeepsIntegrity | crud.py:83-91 | Any category update keeps primary keys and referential integrity, an explicit-null patch included. |
| Properties.ApplyKeepsIntegrity | crud.py:14-107 | With the foreign key enforced, every write request keeps primary keys and referential integrity, whether or not its body passed a validator. This includes an explicit-null patch the validators as written accept. |
| Properties.RunKeepsIntegrity | crud.py:14-107 | With the foreign key enforced, any sequence of write requests, validated or not, keeps primary keys and referential integrity. |
| Properties.ReachableIsIntegral | crud.py:14-107 | With the foreign key enforced, every database the program as written can reach from the empty one keeps primary keys and referential integrity. |
| Properties.CategoriaDeletesKeepIntegrity | crud.py:97-106 | Any sequence of category deletes keeps referential integrity and leaves the books untouched, even when the database enforces nothing. |
| Properties.CreateGetDeleteScenario | test_api.py:100-111 | Create a book in an empty store and it gets id 1 and reads back. After deleting it, it reads as absent, and a second delete reports False. |
| Properties.DeleteGuardScenario | crud.py:93-107 | A category with one book cannot be deleted, and the store is unchanged. After the book is deleted, the category can be deleted and then reads as absent. |
| Properties.NullTituloPatchBreaksReadView | schemas.py:27-31 | As written, the patch `{"titulo": null}` passes validation and is stored. The stored book then has no Read view. |
| Properties.NullNomePatchBreaksReadView | schemas.py:9-11 | As written, the patch `{"nome": null}` passes validation and is stored. The stored category then has no Read view. |

## Left out

- The FastAPI routing in `main.py` is not modelled: the HTTP status codes, the `get_db` session lifecycle, and the `get_livro_crud` / `get_categoria_crud` factories.
  - A `ValueError` from book create or category delete becomes the 400 answer (main.py:54-58, main.py:147-153).
  - A `ValueError` from book update is not caught by `update_livro` or `patch_livro` (main.py:61-80), so it escapes the handler as an unhandled error.
  - None or False becomes the 404 answer.
- SQLAlchemy session mechanics (`add`, `commit`, `refresh`, `rollback`) are not modelled.
  - Each operation is treated as atomic, and only its net effect on the two maps is modelled.
  - A commit failure other than an integrity error is not modelled.
- Foreign-key enforcement is not modelled as a guarantee. It depends on database configuration that is not part of this model, and SQLite does not enforce foreign keys by default.
  - The model takes it as the `accepts` parameter instead.
  - The invariant lemmas assume `EnforcesForeignKey(accepts)`.
  - `CategoriaDeletesKeepIntegrity` holds with no enforcement at all.
- Keys.Fresh: the id strategy is SQLite's rowid rule (largest key plus one, 1 on an empty table), assuming the database is SQLite, as in test_api.py:11. The database configuration itself is not part of this model. The contracts rely only on the new id being fresh and larger than every key.
  - Reuse of a deleted largest id follows this rule.
  - AUTOINCREMENT-style never-reuse is not modelled.
- Row order: `read_all` and `read_by_categoria` issue no `ORDER BY`. The model returns rows in ascending id order, which is the order of a rowid scan. The ordering lemmas state this under the primary-key invariant.
- LivroCrud.Update: a patch that leaves the row unchanged issues no write. This is how SQLAlchemy treats an unmodified object, so such a patch never reaches the integrity check.
- Pydantic coercion and JSON parsing are not modelled.
  - Validators work on already-typed records.
  - String length counts characters of a `seq<char>`, with no Unicode normalisation.
- Integer width is not modelled. Ids, `categoria_id` and `ano_publicacao` are unbounded `int`s, while the database stores 64-bit integers.
  - A value above 2^63-1 makes the driver raise `OverflowError` on a read or a write. That is not an `IntegrityError`, so it escapes the CRUD methods uncaught. The model instead returns None, an empty list, or (through `accepts`) "Erro de integridade".
  - SQLite's switch to a random free rowid once the largest key reaches 2^63-1 is not modelled either.
- Concurrent requests and transaction isolation are not modelled.

## Findings

| source | as written | input that shows it | evidently intended | confidence | as-written member | corrected member |
|---|---|---|---|---|---|---|
| schemas.py:27-31 | `LivroUpdate` declares `titulo`, `autor` and `ano_publicacao` as `Optional` with default `None`, so an explicit `null` passes validation. `crud.py:44-45` then writes NULL into the row. | `PATCH /livros/1` with body `{"titulo": null}` on a stored valid book | A patch may leave a field out but may not null a field the `LivroRead` response requires. Otherwise the updated row can no longer be serialised. | medium; not executed | Properties.NullTituloPatchBreaksReadView | Properties.LivroNonNullPatchKeepsReadView |
| schemas.py:9-11 | `CategoriaUpdate.nome` is `Optional` with default `None`, so an explicit `null` passes validation. `crud.py:87-88` then writes NULL into the row. | `PATCH /categorias/1` with body `{"nome": null}` on a stored valid category | A patch may not null `nome`, which `CategoriaRead` requires. | medium; not executed | Properties.NullNomePatchBreaksReadView | Properties.CategoriaNonNullPatchKeepsReadView |

The corrected validators are `Schemas.ValidLivroUpdateNonNull` and
`Schemas.ValidCategoriaUpdateNonNull`. The request-sequence invariant
(`Properties.Admitted`, `Properties.ReachableIsConsistent`) uses them.
Primary keys and referential integrity do not depend on them:
`Properties.ReachableIsIntegral` holds for the program as written.
