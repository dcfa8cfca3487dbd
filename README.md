# RequisitionService, modelled in Dafny

The repository is a generated CRUD layer: one controller and one service per
entity type. All the services come from the same template. This project models
that template through `RequisitionService`
(`API/Services/RequisitionService.g.cs`). The database context becomes an
in-memory table: a sequence of records with unique `Id`s, in the order an
unsorted query returns them. The model covers:

- the list request (`Get` → `GetRequisition`). It checks the page size and
  then the page number. It filters the rows, optionally orders them by one
  property (ascending or descending, with "asc"/"desc" read ignoring case),
  and returns `Skip((pageNumber - 1) * pageSize).Take(pageSize)`;
- `GetById`, which returns the first record with the given key, or nothing;
- `Create`, `Update`, `Patch` and `Delete`, as methods of the class
  `Service.RequisitionService`. These change its `rows` field. Each is one
  atomic update of the table.

Modules, leaf first:

- `Results`: `Option` and `Result`.
- `Text`: ordinal case-insensitive equality.
- `Entities`: `Entity`, the key type `Guid`, sort keys, and binding a sort
  field to a property.
- `Errors`: the exceptions, with their messages.
- `Table`: lookup, overwrite and removal on the row sequence, with their
  frame lemmas.
- `Ordering`: `OrderBy`/`OrderByDescending`, fixed by the model as a stable
  insertion sort.
- `Paging`: `Skip`/`Take` and page arithmetic.
- `Listing`: the list pipeline.
- `Service`: the class.

Abstractions:

- Entity records. A record has its key `Id` plus the other properties by
  name. Each non-null property value is abstracted as its rank in the
  database's order for that column (for a string column, its collation).
  A null value is left out of `Props` and ranks lowest: first in ascending
  order, last in descending order. The model fixes this place for nulls;
  the source leaves it to the database.
- Sort-field binding. `Expression.Property` (line 158) binds the sort field
  to a property, matching the name ignoring case. The model checks `Id`
  first, then the declared property names. A name that matches nothing is
  the `UnknownProperty` error. That error comes before the sort order is
  read, as in the source.
- The filter. `FilterService<T>.ApplyFilter` becomes a parameter
  `keep: Entity -> bool`. It stands for the filter criteria and the search
  term together. Nothing is claimed about which rows it keeps, only that it
  keeps table order.
- Patch documents. A `JsonPatchDocument` becomes `PatchDocument(ApplyTo)`, an
  opaque function from record to record. A null document is `None`.
- Errors. The six errors the service throws itself (page size, page number,
  sort order, missing patch document, and "No data found!" twice) are plain
  `ApplicationException`s, which only their messages tell apart.
  `Errors.Message` keeps those messages, including the misspelt
  "Page mumber invalid!". The other four have their own exception types in
  the source: `UnknownProperty` is the `ArgumentException` of
  `Expression.Property` (line 158), `NoRowAffected` the concurrency exception
  of `SaveChanges` (line 188), and `KeyModified` and `DuplicateKey` the
  persistence layer's `InvalidOperationException` or update exception.
  The model tells all of them apart by constructor.
- Persistence-layer failures become error results. The source leaves these
  to the persistence layer. Under its default conventions for a `Guid`
  key:
  - an insert under a key already stored is refused (`DuplicateKey`);
  - a record carrying the empty Guid gets a generated key, which is passed
    in as a parameter, so no stored row is keyed by the empty Guid (part of
    `Valid()`);
  - an update of a key that no row has affects no row and fails
    (`NoRowAffected`);
  - a patch that changes the key is refused (`KeyModified`).
  In each of these cases the table is left unchanged.

The sort itself runs in the database: the source builds `Queryable.OrderBy`
over an `IQueryable` (lines 152-166), which becomes an SQL `ORDER BY` when
`ToList` runs (line 174). The model fixes one ordering for it. Ties keep
their input order, and nulls rank lowest: first in ascending order, last in
descending order. Descending order is therefore non-increasing, not
strictly decreasing.

`Service.CreateReadDelete` is a client of the class that uses the method
contracts alone: a created record reads back under its key, survives the
deletion of another key, and is gone once deleted.

## Model

| member | source | states |
|---|---|---|
| `Text.EqualsIgnoreCaseIsUpperEquality` | API/Services/RequisitionService.g.cs:160-166 | comparing two strings ignoring case, character by character, holds exactly when their upper-cased forms are equal |
| `Text.EqualsIgnoreCaseIsEquivalence` | API/Services/RequisitionService.g.cs:160-166 | the ignore-case comparison used for the sort order is reflexive, symmetric and transitive |
| `Entities.FindDeclared` | API/Services/RequisitionService.g.cs:158 | finds a declared property whose name equals the sort field ignoring case, and finds none exactly when no declared name matches |
| `Entities.LookupProperty` | API/Services/RequisitionService.g.cs:157-158 | the sort field binds to the key exactly when it equals "Id" ignoring case, otherwise to a matching declared property, and fails exactly when nothing matches |
| `Table.IndexOf` | API/Services/RequisitionService.g.cs:81 | the position of the first row with the given key, or the table's length when there is none |
| `Table.FindById` | API/Services/RequisitionService.g.cs:81 | `FirstOrDefault` by key: absent exactly when no row has the key, otherwise a row of the table carrying that key |
| `Table.FindByIdUnique` | API/Services/RequisitionService.g.cs:81 | with unique keys, any stored row is what a lookup of its own key returns |
| `Table.AppendFrame` | API/Services/RequisitionService.g.cs:180-181 | adding a record under a new key keeps keys unique, makes it readable by its key, and leaves every other lookup unchanged |
| `Table.ReplaceFrame` | API/Services/RequisitionService.g.cs:187-188 | overwriting by the entity's own key keeps length and key uniqueness, puts the entity in place of exactly the row with its key, and leaves every other row and lookup unchanged |
| `Table.WithoutFrame` | API/Services/RequisitionService.g.cs:199-200 | removing a present key shortens the table by one, keeps exactly the rows with other keys, makes the key unreadable and leaves other lookups unchanged |
| `Ordering.InsertPermutes` | API/Services/RequisitionService.g.cs:162-166 | one insertion step of the ordering adds exactly the one row: the result is a permutation of the input plus that row |
| `Ordering.SortByPermutes` | API/Services/RequisitionService.g.cs:162-166 | ordering by a key returns a permutation of its input |
| `Ordering.InsertSorted` | API/Services/RequisitionService.g.cs:162-166 | inserting into a sorted sequence keeps it sorted |
| `Ordering.SortBySorted` | API/Services/RequisitionService.g.cs:162-166 | `OrderBy` gives non-decreasing keys and `OrderByDescending` non-increasing keys |
| `Ordering.InsertStable` | API/Services/RequisitionService.g.cs:162-166 | an insertion step keeps the relative order of the rows sharing any one key |
| `Ordering.SortByStable` | API/Services/RequisitionService.g.cs:162-166 | the model's ordering is stable: the rows with any one key come out in their input order, the tie order the model fixes for the database's sort |
| `Ordering.SortByUniqueIds` | API/Services/RequisitionService.g.cs:162-166 | ordering rows with unique keys leaves their keys unique |
| `Errors.ClassifyMessage` | API/Services/RequisitionService.g.cs:142-214 | `Message` carries the service's own messages verbatim (lines 144, 149, 170, 196, 208 and 214, including the misspelt "Page mumber invalid!") and paraphrases those of the persistence layer and of reflection; every error's message reads back as that error |
| `Errors.MessageIdentifies` | API/Services/RequisitionService.g.cs:142-214 | no two distinct errors carry the same message; for the six errors the service throws as plain `ApplicationException`s (lines 144, 149, 170, 196, 208, 214) the message is what tells them apart |
| `Paging.Page` | API/Services/RequisitionService.g.cs:174 | `Skip((n-1)*size).Take(size)`: at most `size` elements; empty exactly when the offset reaches the end; full, or else runs to the end of the input; element `i` is input element `offset + i` |
| `Paging.BoundMonotone` | API/Services/RequisitionService.g.cs:153 | where the first `a` pages end is no later than where the first `b >= a` pages end |
| `Paging.PageIsSlice` | API/Services/RequisitionService.g.cs:174 | page `n` is exactly the slice between where `n-1` pages end and where `n` pages end |
| `Paging.ConsecutivePages` | API/Services/RequisitionService.g.cs:174 | pages `n` and `n+1` are adjacent, non-overlapping slices whose concatenation is one slice; a short page is followed by an empty one |
| `Paging.PagesArePrefix` | API/Services/RequisitionService.g.cs:174 | pages `1..k` concatenated are the first `k*size` elements, or all of them |
| `Paging.PagesCoverAll` | API/Services/RequisitionService.g.cs:174 | when `k*size` reaches the length, pages `1..k` together are the whole input |
| `Listing.Filter` | API/Services/RequisitionService.g.cs:154 | the filtered rows are exactly the table's rows the filter keeps, no more of them than the table has, and their keys stay unique |
| `Listing.FilterKeepingAll` | API/Services/RequisitionService.g.cs:154 | a filter that keeps every row returns the table unchanged, in order |
| `Listing.ParseSortOrder` | API/Services/RequisitionService.g.cs:160-171 | the order is ascending exactly when it equals "asc" ignoring case, descending exactly when it equals "desc" ignoring case, and is otherwise the invalid-sort-order error |
| `Listing.Arrange` | API/Services/RequisitionService.g.cs:154-172 | the arranged rows are a permutation of the filtered rows; the step fails exactly when a sort field is given and names no property or comes with an order other than asc/desc |
| `Listing.ArrangeRows` | API/Services/RequisitionService.g.cs:154-172 | every arranged row is a table row the filter keeps, and unique keys stay unique |
| `Listing.GetRequisition` | API/Services/RequisitionService.g.cs:140-176 | page size below one raises the page-size error whatever else is wrong; a valid size with a page number below one raises the page-number error; a result has at most `pageSize` rows, all of them table rows the filter keeps, with unique keys |
| `Listing.PageOfRows` | API/Services/RequisitionService.g.cs:174 | every row of a page comes from the paged sequence, and keys stay unique |
| `Listing.GetFailures` | API/Services/RequisitionService.g.cs:142-171 | a list request fails exactly on a bad page size, a bad page number, an unknown sort field, or a bad order with a sort field; an unknown field and a bad order each raise their own error |
| `Listing.GetUnsorted` | API/Services/RequisitionService.g.cs:155 | with no sort field, the page comes from the filtered rows in table order, and the sort order is never read: any two sort orders give the same answer |
| `Listing.PageSorted` | API/Services/RequisitionService.g.cs:162-174 | a page of a sorted sequence is sorted |
| `Listing.GetSorted` | API/Services/RequisitionService.g.cs:155-172 | with a known field and an asc/desc order the request succeeds; its page is in that order of the field; it is cut from a stable reordering of the filtered rows |
| `Listing.SortOrderIgnoresCase` | API/Services/RequisitionService.g.cs:160-166 | any spelling of "asc" or "desc" that differs only in case answers exactly as the lower-case one does |
| `Listing.ConsecutiveGetPages` | API/Services/RequisitionService.g.cs:153-174 | requests for pages `n` and `n+1` both succeed and are adjacent slices of one arranged sequence; a short page is followed by an empty one; with unique keys no record is on both pages |
| `Listing.GetPagesArePrefix` | API/Services/RequisitionService.g.cs:153-174 | every page number requests the page of the same arranged sequence, and pages `1..k` together are its first `k*pageSize` rows, or all of them |
| `Service.AssignedKey` | API/Services/RequisitionService.g.cs:104 | the stored key is the record's own when set, and never the empty Guid |
| `Service.RequisitionService.constructor` | API/Services/RequisitionService.g.cs:71-74 | the service starts on the given table; its keys are unique and none is the empty Guid, which the persistence layer never stores |
| `Service.RequisitionService.GetById` | API/Services/RequisitionService.g.cs:79-83 | returns nothing exactly when no row has the key, otherwise a stored row with that key; it reads the table and cannot fail |
| `Service.RequisitionService.Get` | API/Services/RequisitionService.g.cs:93-97 | delegates to `GetRequisition` on the current table: the page checks come first, and a page has at most `pageSize` stored rows the filter keeps |
| `Service.RequisitionService.Create` | API/Services/RequisitionService.g.cs:178-183 | appends the record under its assigned key and returns that key, after which `GetById` of the key returns the record; a key already stored is refused with the table unchanged; other lookups are unchanged |
| `Service.RequisitionService.Update` | API/Services/RequisitionService.g.cs:185-189 | stores the entity over the row with the entity's own key, ignoring `id`, and returns true; no other lookup changes; an absent key is a failed commit with the table unchanged |
| `Service.RequisitionService.Patch` | API/Services/RequisitionService.g.cs:204-220 | a missing document fails before the lookup; an absent id fails with "No data found!"; a patch changing the key is refused; in every failing case the table is unchanged; otherwise only the row at `id` becomes `ApplyTo(old row)` and the result is true |
| `Service.RequisitionService.Delete` | API/Services/RequisitionService.g.cs:191-202 | an absent id fails with "No data found!" and the table unchanged; otherwise exactly that row is removed, the others keep their order, the key is no longer found, and the result is true |

## Left out

- The controllers (`API/Controllers/*Controller.g.cs`) are not part of this model: routing, entitlement attributes, response envelopes, their copy of the page checks, the id-mismatch check for PUT, the null-patch check, and the parsing of the `filters` JSON.
- `FilterService<T>.ApplyFilter` and the search term: the source of the filter service is not part of this model. An opaque `keep` predicate stands in for them, so errors the filter service raises (an unknown property or operator) are not modelled.
- `IncludeRelated` and related entities, including cascade deletes: navigation properties are not part of this model.
- `SaveChanges`, transactions and change tracking: each mutating call is one atomic replacement of `rows`. Database constraints other than key uniqueness (required columns, foreign keys) are not modelled.
- The order of an unsorted query is whatever the database returns. The model fixes it as the order of `rows`, with `Create` appending.
- In a sorted query, the order of rows with equal keys and the place of nulls belong to the database, which may even order ties differently in the queries for two pages. The model fixes them as input order, with nulls ranked lowest (first ascending, last descending), and the page lemmas (`Listing.ConsecutiveGetPages`, `Listing.GetPagesArePrefix`) hold under that fixed ordering.
- `JsonPatchDocument.ApplyTo`: its operations and its own failures (a bad path, a bad value) are not modelled. It is a total function on records.
- Comparing column values: a value is represented by its integer rank in the database's order for its column. A key is ordered by its numeric value, not by the database's `uniqueidentifier` order.
- `Entities.LookupProperty`: does not model the ambiguous-match exception for two properties whose names differ only in case (it takes the first), nor non-public properties.
- `Text.EqualsIgnoreCase`: folds ASCII letters only. Non-ASCII case mappings that `OrdinalIgnoreCase` also applies (such as 'é' to 'É', or Greek and Cyrillic letters) are not modelled.
- The 32-bit overflow of `(pageNumber - 1) * pageSize`: integers are unbounded.
- A null `sortOrder` with a non-empty `sortField`, which throws `NullReferenceException` at line 160: `sortOrder` is a non-null string in the model. A null `sortField` and an empty one behave alike and are both `""`.
- `Service.RequisitionService.Update`: an entity whose key is the empty Guid, which the persistence layer would insert under a generated key, is a failed commit (`NoRowAffected`), since `Valid()` keeps the empty Guid out of the table.
- The default arguments of `Get` and `GetRequisition` (lines 32, 93 and 140: page 1, page size 1, no sort field, "asc"): the model takes every argument explicitly.
- The messages of the errors the persistence layer and reflection raise (`DuplicateKey`, `NoRowAffected`, `KeyModified`, `UnknownProperty`) are paraphrases.
- Concurrency between requests (last write wins): nothing in this layer coordinates requests.
